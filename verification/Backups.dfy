/**
 Recovery points on the backup volume: taking one, reading it back, and pruning the old.
 */
module Backups {
  import opened Text
  import opened Sorting

  /** `readBack` is whether `pg_restore --list` has read the file. `mtime` is in milliseconds. */
  datatype File = File(name: string, mtime: int, bytes: nat, readBack: bool)

  /** `name.startsWith('etg-') && name.endsWith('.dump')` */
  predicate IsDumpName(name: string) { "etg-" <= name && |name| >= 5 && name[|name| - 5..] == ".dump" }

  predicate IsDump(f: File) { IsDumpName(f.name) }

  function Dumps(files: seq<File>): seq<File> {
    if files == [] then []
    else Dumps(files[..|files| - 1]) + if IsDump(files[|files| - 1]) then [files[|files| - 1]] else []
  }

  function NewestFirst(): (File, File) -> bool { (a: File, b: File) => a.mtime >= b.mtime }

  lemma NewestFirstIsOrder()
    ensures Order(NewestFirst())
  {
  }

  /** Recovery points, newest first; equal times stay in directory order. */
  function ListBackups(files: seq<File>): seq<File> { Sort(NewestFirst(), Dumps(files)) }

  function HasRecentBackup(files: seq<File>, now: int, maxAgeMinutes: int): Option<File> {
    var list := ListBackups(files);
    if list != [] && now - list[0].mtime <= maxAgeMinutes * 60_000 then Some(list[0]) else None
  }

  // ---------------------------------------------------------------------------------------
  // Taking one

  /**
   How `takeBackup` ends: before `pg_dump` runs; `pg_dump` fails, perhaps leaving part of a file;
   it leaves no output or an empty file; the file cannot be read back and is deleted, or cannot be
   deleted either; or all is well.
   */
  datatype Taking =
    | NotStarted
    | DumpFailed(partial: Option<nat>)
    | NoOutput(emptyFile: bool)
    | Unreadable(bytes: nat, stuck: bool)
    | Verified(bytes: nat)

  /** What is on the volume afterwards. The new file's place in the directory does not matter here. */
  function AfterTake(files: seq<File>, name: string, now: int, how: Taking): seq<File> {
    match how
    case NotStarted => files
    case DumpFailed(partial) => if partial.Some? then files + [File(name, now, partial.value, false)] else files
    case NoOutput(emptyFile) => if emptyFile then files + [File(name, now, 0, false)] else files
    case Unreadable(bytes, stuck) => if stuck then files + [File(name, now, bytes, false)] else files
    case Verified(bytes) => files + [File(name, now, bytes, true)]
  }

  // ---------------------------------------------------------------------------------------
  // Pruning

  /** Where `slice(keep)` starts; what is no number counts as zero, a negative number from the end. */
  function SliceStart(keep: int, n: nat): nat {
    if keep >= 0 then (if keep <= n then keep else n) else if n + keep >= 0 then n + keep else 0
  }

  /** The files `prune` deletes: those listed from `keep` on, but for the ones that will not delete. */
  function Doomed(files: seq<File>, keep: int, stuck: set<string>): seq<File> {
    var list := ListBackups(files);
    NotStuck(list[SliceStart(keep, |list|)..], stuck)
  }

  function NotStuck(files: seq<File>, stuck: set<string>): seq<File> {
    if files == [] then []
    else
      var n := |files| - 1;
      NotStuck(files[..n], stuck) + if files[n].name in stuck then [] else [files[n]]
  }

  function Without(files: seq<File>, names: set<string>): seq<File> {
    if files == [] then []
    else
      var n := |files| - 1;
      Without(files[..n], names) + if files[n].name in names then [] else [files[n]]
  }

  function Names(files: seq<File>): set<string> { set i | 0 <= i < |files| :: files[i].name }

  function AfterPrune(files: seq<File>, keep: int, stuck: set<string>): seq<File> {
    Without(files, Names(Doomed(files, keep, stuck)))
  }

  class Volume {
    var files: seq<File>

    constructor (found: seq<File>)
      ensures files == found
    {
      files := found;
    }

    /** Returns the new file when the backup verified, nothing when it threw. */
    method TakeBackup(name: string, now: int, how: Taking) returns (made: Option<File>)
      modifies this
      ensures files == AfterTake(old(files), name, now, how)
      ensures made == if how.Verified? then Some(File(name, now, how.bytes, true)) else None
    {
      made := None;
      match how {
        case NotStarted =>
        case DumpFailed(partial) =>
          if partial.Some? { files := files + [File(name, now, partial.value, false)]; }
        case NoOutput(emptyFile) =>
          if emptyFile { files := files + [File(name, now, 0, false)]; }
        case Unreadable(bytes, stuck) =>
          ghost var before := files;
          var written := File(name, now, bytes, false);
          files := files + [written];
          if !stuck { files := files[..|files| - 1]; }
        case Verified(bytes) =>
          made := Some(File(name, now, bytes, true));
          files := files + [made.value];
      }
    }

    method Prune(keep: int, stuck: set<string>) returns (removed: seq<string>)
      modifies this
      ensures files == AfterPrune(old(files), keep, stuck)
      ensures (set x | x in removed) == Names(Doomed(old(files), keep, stuck))
    {
      ghost var start := files;
      var list := ListBackups(files);
      var tail := list[SliceStart(keep, |list|)..];
      removed := [];
      WithoutNothing(start);
      NoNames();
      for i := 0 to |tail|
        invariant files == Without(start, Names(NotStuck(tail[..i], stuck)))
        invariant (set x | x in removed) == Names(NotStuck(tail[..i], stuck))
      {
        hide Without, NotStuck, Names;
        var b := tail[i];
        NotStuckStep(tail, i, stuck);
        ghost var gone := Names(NotStuck(tail[..i], stuck));
        assert gone + {} == gone;
        if b.name !in stuck {
          WithoutMore(start, gone, b.name);
          assert (set x | x in removed + [b.name]) == (set x | x in removed) + {b.name};
          files := Without(files, {b.name});
          removed := removed + [b.name];
        }
      }
      assert tail[..|tail|] == tail;
    }
  }

  lemma NotStuckStep(tail: seq<File>, i: nat, stuck: set<string>)
    requires i < |tail|
    ensures Names(NotStuck(tail[..i + 1], stuck))
         == Names(NotStuck(tail[..i], stuck)) + if tail[i].name in stuck then {} else {tail[i].name}
  {
    hide Names;
    assert tail[..i + 1][..i] == tail[..i];
    var before := NotStuck(tail[..i], stuck);
    if tail[i].name in stuck {
      assert before + [] == before;
    } else {
      NamesOfLonger(before, tail[i]);
    }
  }

  lemma {:induction false} WithoutNothing(files: seq<File>)
    ensures Without(files, {}) == files
    decreases |files|
  {
    if files != [] {
      WithoutNothing(files[..|files| - 1]);
      assert files == files[..|files| - 1] + [files[|files| - 1]];
    }
  }

  lemma NoNames()
    ensures Names([]) == {}
  {
  }

  lemma {:induction false} WithoutMore(files: seq<File>, names: set<string>, more: string)
    ensures Without(Without(files, names), {more}) == Without(files, names + {more})
    decreases |files|
  {
    if files != [] {
      var n := |files| - 1;
      WithoutMore(files[..n], names, more);
      var before := Without(files[..n], names);
      if files[n].name !in names {
        assert Without(files, names)[..|before|] == before;
      } else {
        assert Without(files, names) == before;
      }
    }
  }

  lemma NamesOfLonger(files: seq<File>, f: File)
    ensures Names(files + [f]) == Names(files) + {f.name}
  {
    var all := files + [f];
    assert forall i :: 0 <= i < |files| ==> all[i] == files[i];
    assert all[|files|] == f;
  }

  // ---------------------------------------------------------------------------------------
  // What is listed, and what pruning leaves

  lemma {:induction false} DumpsAre(files: seq<File>, f: File)
    ensures f in Dumps(files) <==> f in files && IsDump(f)
    decreases |files|
  {
    if files != [] {
      DumpsAre(files[..|files| - 1], f);
      assert files == files[..|files| - 1] + [files[|files| - 1]];
    }
  }

  lemma ListedAre(files: seq<File>, f: File)
    ensures f in ListBackups(files) <==> f in files && IsDump(f)
  {
    SortKeeps(NewestFirst(), Dumps(files));
    SameElements(ListBackups(files), Dumps(files));
    SameElements(Dumps(files), ListBackups(files));
    DumpsAre(files, f);
  }

  lemma {:induction false} WithoutKeeps(files: seq<File>, names: set<string>, f: File)
    ensures f in Without(files, names) <==> f in files && f.name !in names
    decreases |files|
  {
    if files != [] {
      WithoutKeeps(files[..|files| - 1], names, f);
      assert files == files[..|files| - 1] + [files[|files| - 1]];
    }
  }

  lemma {:induction false} NotStuckAre(files: seq<File>, stuck: set<string>, f: File)
    ensures f in NotStuck(files, stuck) <==> f in files && f.name !in stuck
    decreases |files|
  {
    if files != [] {
      NotStuckAre(files[..|files| - 1], stuck, f);
      assert files == files[..|files| - 1] + [files[|files| - 1]];
    }
  }

  /** A dump's name is anything between the prefix and the suffix. */
  lemma DumpNameExactly(name: string)
    ensures IsDumpName(name) <==> exists mid :: name == "etg-" + mid + ".dump"
  {
    if IsDumpName(name) {
      assert forall k :: 0 <= k < 4 ==> name[k] == "etg-"[k] && name[k] != '.';
      assert name[|name| - 5] == name[|name| - 5..][0] == '.';
      assert name == "etg-" + name[4..|name| - 5] + ".dump";
    }
    forall mid | name == "etg-" + mid + ".dump" ensures IsDumpName(name) {
      assert name[..4] == "etg-" && name[|name| - 5..] == ".dump";
    }
  }

  /** Newest first, and files of one time in directory order. */
  lemma ListIsNewestFirst(files: seq<File>, f: File)
    ensures var list := ListBackups(files); forall i, j :: 0 <= i < j < |list| ==> list[i].mtime >= list[j].mtime
    ensures Ties(NewestFirst(), ListBackups(files), f) == Ties(NewestFirst(), Dumps(files), f)
  {
    hide Sort, Dumps;
    NewestFirstIsOrder();
    SortSorts(NewestFirst(), Dumps(files));
    SortIsStable(NewestFirst(), Dumps(files), f);
    var list := ListBackups(files);
    forall i, j | 0 <= i < j < |list| ensures list[i].mtime >= list[j].mtime { assert NewestFirst()(list[i], list[j]); }
  }

  /** There is a recent backup exactly when some dump is at most that old, and it is the newest dump. */
  lemma RecentExactly(files: seq<File>, now: int, maxAgeMinutes: int)
    ensures var found := HasRecentBackup(files, now, maxAgeMinutes);
            && (found.Some? <==> exists f :: f in files && IsDump(f) && now - f.mtime <= maxAgeMinutes * 60_000)
            && (found.Some? ==>
                  && found.value in files && IsDump(found.value)
                  && now - found.value.mtime <= maxAgeMinutes * 60_000
                  && forall g :: g in files && IsDump(g) ==> g.mtime <= found.value.mtime)
  {
    hide ListBackups, IsDumpName;
    var list := ListBackups(files);
    forall f ensures f in list <==> f in files && IsDump(f) { ListedAre(files, f); }
    if list != [] {
      assert list[0] in list;
      ListIsNewestFirst(files, list[0]);
      forall g | g in list ensures g.mtime <= list[0].mtime {
        var i :| 0 <= i < |list| && list[i] == g;
      }
    }
  }

  /**
   A take adds at most one file, at its time and under its name: read back exactly when it verified,
   else a part, an empty output, or an unreadable dump that would not delete.
   */
  lemma TakeExactly(files: seq<File>, name: string, now: int, how: Taking, f: File)
    ensures f in AfterTake(files, name, now, how) <==>
              || f in files
              || (f.name == name && f.mtime == now && f.readBack && how == Verified(f.bytes))
              || (f.name == name && f.mtime == now && !f.readBack
                  && (how == DumpFailed(Some(f.bytes)) || how == Unreadable(f.bytes, true)
                      || (how == NoOutput(true) && f.bytes == 0)))
    ensures files <= AfterTake(files, name, now, how) && |AfterTake(files, name, now, how)| <= |files| + 1
  {
  }

  /** Names are unique in a directory. */
  ghost predicate UniqueNames(files: seq<File>) {
    forall i, j :: 0 <= i < j < |files| ==> files[i].name != files[j].name
  }

  lemma SameNameSameFile(files: seq<File>, f: File, g: File)
    requires UniqueNames(files) && f in files && g in files && f.name == g.name
    ensures f == g
  {
  }

  /** A failed take removes no earlier file, and what it may add is not read back. */
  lemma FailedTakeKeeps(files: seq<File>, name: string, now: int, how: Taking, f: File)
    requires !how.Verified?
    ensures f in files ==> f in AfterTake(files, name, now, how)
    ensures f in AfterTake(files, name, now, how) && f !in files ==> f.name == name && !f.readBack
  {
  }

  /** Prune removes a file exactly when it is listed from `keep` on and will delete. */
  lemma PruneRemovesExactly(files: seq<File>, keep: int, stuck: set<string>, f: File)
    requires UniqueNames(files) && f in files
    ensures var list := ListBackups(files);
            f !in AfterPrune(files, keep, stuck) <==> f in list[SliceStart(keep, |list|)..] && f.name !in stuck
  {
    hide ListBackups, Without, NotStuck;
    var list := ListBackups(files);
    var tail := list[SliceStart(keep, |list|)..];
    var doomed := Doomed(files, keep, stuck);
    WithoutKeeps(files, Names(doomed), f);
    NotStuckAre(tail, stuck, f);
    if f in doomed { NameOfMember(doomed, f); }
    if f.name in Names(doomed) {
      var i :| 0 <= i < |doomed| && doomed[i].name == f.name;
      assert doomed[i] in doomed;
      NotStuckAre(tail, stuck, doomed[i]);
      assert doomed[i] in list;
      ListedAre(files, doomed[i]);
      SameNameSameFile(files, f, doomed[i]);
    }
  }

  lemma NameOfMember(files: seq<File>, f: File)
    requires f in files
    ensures f.name in Names(files)
  {
  }

  lemma AppendNothing(files: seq<File>)
    ensures files + [] == files
  {
  }

  lemma WithoutOfLonger(files: seq<File>, f: File, names: set<string>)
    ensures var before := Without(files, names);
            Without(files + [f], names) == if f.name in names then before else before + [f]
  {
    AppendNothing(Without(files, names));
    assert (files + [f])[..|files|] == files;
  }

  lemma InsertBeforeLast(s: seq<File>, last: File, f: File)
    ensures Insert(NewestFirst(), s + [last], f)
         == if NewestFirst()(last, f) then s + [last] + [f] else Insert(NewestFirst(), s, f) + [last]
  {
    assert (s + [last])[..|s|] == s;
  }

  lemma InsertLast(s: seq<File>, f: File)
    requires forall g :: g in s ==> NewestFirst()(g, f)
    ensures Insert(NewestFirst(), s, f) == s + [f]
  {
  }

  lemma {:induction false} InsertWithout(s: seq<File>, f: File, names: set<string>)
    requires Sorted(NewestFirst(), s) && f.name !in names
    ensures Without(Insert(NewestFirst(), s, f), names) == Insert(NewestFirst(), Without(s, names), f)
    decreases |s|
  {
    hide Without, Insert;
    if forall g :: g in s ==> NewestFirst()(g, f) {
      InsertLast(s, f);
      WithoutOfLonger(s, f, names);
      forall g | g in Without(s, names) ensures NewestFirst()(g, f) { WithoutKeeps(s, names, g); }
      InsertLast(Without(s, names), f);
    } else {
      var head, last := s[..|s| - 1], s[|s| - 1];
      assert s == head + [last];
      LastIsLater(s, f);
      InsertWithout(head, f, names);
      InsertBeforeLast(head, last, f);
      WithoutOfLonger(Insert(NewestFirst(), head, f), last, names);
      WithoutOfLonger(head, last, names);
      InsertBeforeLast(Without(head, names), last, f);
    }
  }

  lemma LastIsLater(s: seq<File>, f: File)
    requires Sorted(NewestFirst(), s) && exists g :: g in s && !NewestFirst()(g, f)
    ensures s != [] && !NewestFirst()(s[|s| - 1], f)
  {
    var g :| g in s && !NewestFirst()(g, f);
    LastIsGreatest(NewestFirst(), s, g);
  }

  /** What is removed leaves no trace of where it was put. */
  lemma {:induction false} InsertRemoved(s: seq<File>, f: File, names: set<string>)
    requires f.name in names
    ensures Without(Insert(NewestFirst(), s, f), names) == Without(s, names)
    decreases |s|
  {
    hide Without, Insert;
    if s == [] {
      InsertLast(s, f);
      WithoutOfLonger(s, f, names);
    } else {
      var head, last := s[..|s| - 1], s[|s| - 1];
      assert s == head + [last];
      InsertRemoved(head, f, names);
      InsertBeforeLast(head, last, f);
      WithoutOfLonger(s, f, names);
      WithoutOfLonger(Insert(NewestFirst(), head, f), last, names);
      WithoutOfLonger(head, last, names);
    }
  }

  /** Sorting and removing by name commute, as the sort is stable. */
  lemma {:induction false} SortWithout(s: seq<File>, names: set<string>)
    ensures Sort(NewestFirst(), Without(s, names)) == Without(Sort(NewestFirst(), s), names)
    decreases |s|
  {
    hide Insert, Without;
    if s == [] {
      WithoutNothingLeft(names);
    } else {
      var head, last := s[..|s| - 1], s[|s| - 1];
      assert s == head + [last];
      SortWithout(head, names);
      WithoutOfLonger(head, last, names);
      var left := Without(head, names);
      if last.name in names {
        InsertRemoved(Sort(NewestFirst(), head), last, names);
      } else {
        SortSortsNewestFirst(head);
        InsertWithout(Sort(NewestFirst(), head), last, names);
        assert (left + [last])[..|left|] == left;
      }
    }
  }

  lemma WithoutNothingLeft(names: set<string>)
    ensures Without([], names) == []
  {
  }

  lemma DumpsOfLonger(files: seq<File>, f: File)
    ensures Dumps(files + [f]) == if IsDump(f) then Dumps(files) + [f] else Dumps(files)
  {
    AppendNothing(Dumps(files));
    assert (files + [f])[..|files|] == files;
  }

  lemma {:induction false} DumpsWithout(files: seq<File>, names: set<string>)
    ensures Dumps(Without(files, names)) == Without(Dumps(files), names)
    decreases |files|
  {
    if files == [] {
    } else {
      hide IsDump, Dumps, Without;
      var head, last := files[..|files| - 1], files[|files| - 1];
      assert files == head + [last];
      DumpsWithout(head, names);
      WithoutOfLonger(head, last, names);
      DumpsOfLonger(head, last);
      DumpsOfLonger(Without(head, names), last);
      WithoutOfLonger(Dumps(head), last, names);
    }
  }

  /** Removing the names from position `k` on leaves the first `k`. */
  lemma {:induction false} WithoutTail(list: seq<File>, k: nat, names: set<string>)
    requires k <= |list|
    requires forall i :: 0 <= i < |list| ==> (list[i].name in names <==> i >= k)
    ensures Without(list, names) == list[..k]
    decreases |list|
  {
    if list != [] {
      hide Without;
      var n := |list| - 1;
      assert list == list[..n] + [list[n]];
      WithoutOfLonger(list[..n], list[n], names);
      assert list[n].name in names <==> n >= k;
      WithoutTail(list[..n], if k <= n then k else n, names);
    }
  }

  lemma {:induction false} NothingStuck(files: seq<File>)
    ensures NotStuck(files, {}) == files
    decreases |files|
  {
    if files != [] {
      NothingStuck(files[..|files| - 1]);
      assert files == files[..|files| - 1] + [files[|files| - 1]];
    }
  }

  /** How many of `n` listed files KEEP leaves: so many, or for a negative number all but the last so many. */
  ghost function LeftByKeep(keep: int, n: nat): nat {
    if keep < 0 then (if n + keep < 0 then 0 else n + keep) else if keep < n then keep else n
  }

  /** When every file deletes, a prune leaves exactly the first KEEP of the list, in its order. */
  lemma PruneLeavesFirst(files: seq<File>, keep: int)
    requires UniqueNames(files)
    ensures var list := ListBackups(files);
            ListBackups(AfterPrune(files, keep, {})) == list[..LeftByKeep(keep, |list|)]
  {
    hide Sort, Dumps, Without, NotStuck, UniqueNames;
    var list := ListBackups(files);
    var k := LeftByKeep(keep, |list|);
    var tail := list[k..];
    NothingStuck(tail);
    DumpsWithout(files, Names(tail));
    SortWithout(Dumps(files), Names(tail));
    ListHasUniqueNames(files);
    forall i | 0 <= i < |list| ensures list[i].name in Names(tail) <==> i >= k {
      hide Names;
      NamesOfTail(list, k, i);
    }
    WithoutTail(list, k, Names(tail));
  }

  lemma NamesOfTail(list: seq<File>, k: nat, i: nat)
    requires UniqueNames(list) && k <= |list| && i < |list|
    ensures list[i].name in Names(list[k..]) <==> i >= k
  {
    if i >= k { assert list[k..][i - k] == list[i]; }
    forall j | 0 <= j < |list| - k ensures list[k..][j] == list[k + j] {}
  }

  lemma ListHasUniqueNames(files: seq<File>)
    requires UniqueNames(files)
    ensures UniqueNames(ListBackups(files))
  {
    hide Sort, Dumps, IsDumpName;
    var list := ListBackups(files);
    ListIsDistinct(files);
    forall i, j | 0 <= i < j < |list| ensures list[i].name != list[j].name {
      ListedAre(files, list[i]);
      ListedAre(files, list[j]);
      if list[i].name == list[j].name { SameNameSameFile(files, list[i], list[j]); }
    }
  }

  // ---------------------------------------------------------------------------------------
  // A fresh recovery point

  ghost predicate OlderThan(files: seq<File>, now: int) { forall i :: 0 <= i < |files| ==> files[i].mtime < now }

  lemma {:induction false} NewestIsFirst(list: seq<File>, f: File)
    requires Sorted(NewestFirst(), list) && f in list
    requires forall g :: g in list && g != f ==> g.mtime < f.mtime
    ensures list[0] == f
  {
    var i :| 0 <= i < |list| && list[i] == f;
    if i > 0 {
      assert NewestFirst()(list[0], list[i]);
      assert list[0] in list;
    }
  }

  /** The file just written, read back or not, is listed first. */
  lemma FreshIsListedFirst(files: seq<File>, f: File)
    requires IsDump(f) && OlderThan(files, f.mtime)
    ensures ListBackups(files + [f]) != [] && ListBackups(files + [f])[0] == f
  {
    hide Sort, Dumps;
    var all := files + [f];
    var list := ListBackups(all);
    NewestFirstIsOrder();
    SortSorts(NewestFirst(), Dumps(all));
    ListedAre(all, f);
    forall g | g in list && g != f ensures g.mtime < f.mtime {
      ListedAre(all, g);
      assert g in files;
    }
    NewestIsFirst(list, f);
  }

  lemma OnlyOnce(list: seq<File>, f: File, k: nat)
    requires list != [] && list[0] == f && k <= |list|
    requires forall i, j :: 0 <= i < j < |list| ==> list[i] != list[j]
    ensures f in list[k..] <==> k == 0
  {
    if k == 0 {
      assert list[k..][0] == f;
    } else {
      forall i | 0 <= i < |list| - k ensures list[k..][i] != f {
        assert list[k + i] != list[0];
      }
    }
  }

  lemma {:induction false} DumpsAreDistinct(files: seq<File>)
    requires UniqueNames(files)
    ensures UniqueNames(Dumps(files))
    decreases |files|
  {
    if files != [] {
      var n := |files| - 1;
      DumpsAreDistinct(files[..n]);
      forall i | 0 <= i < |Dumps(files[..n])| ensures Dumps(files[..n])[i].name != files[n].name {
        assert Dumps(files[..n])[i] in Dumps(files[..n]);
        DumpsAre(files[..n], Dumps(files[..n])[i]);
      }
    }
  }

  lemma {:induction false} DistinctByMultiset(s: seq<File>)
    ensures (forall f: File :: multiset(s)[f] <= 1) <==> forall i, j :: 0 <= i < j < |s| ==> s[i] != s[j]
    decreases |s|
  {
    if s != [] {
      var n := |s| - 1;
      DistinctByMultiset(s[..n]);
      assert s == s[..n] + [s[n]];
      assert forall i :: 0 <= i < n ==> s[..n][i] == s[i];
      if forall i, j :: 0 <= i < j < |s| ==> s[i] != s[j] {
        assert s[n] !in s[..n];
        assert s[n] !in multiset(s[..n]);
      } else {
        var i, j :| 0 <= i < j < |s| && s[i] == s[j];
        if j == n {
          assert s[i] in s[..n];
          assert s[n] in multiset(s[..n]);
          assert multiset(s)[s[n]] >= 2;
        } else {
          assert s[..n][i] == s[..n][j];
          var f :| multiset(s[..n])[f] > 1;
          assert multiset(s)[f] > 1;
        }
      }
    }
  }

  lemma ListIsDistinct(files: seq<File>)
    requires UniqueNames(files)
    ensures forall i, j :: 0 <= i < j < |ListBackups(files)| ==> ListBackups(files)[i] != ListBackups(files)[j]
  {
    hide Sort, Dumps;
    DumpsAreDistinct(files);
    SortKeeps(NewestFirst(), Dumps(files));
    DistinctByMultiset(Dumps(files));
    DistinctByMultiset(ListBackups(files));
  }

  /** The values of KEEP with which a list of `n` keeps its first entry. */
  predicate KeepsNewest(keep: int, n: nat) { keep >= 1 || (keep < 0 && n + keep >= 1) }

  /**
   A recovery point just taken survives its own prune exactly when KEEP is at least one, or negative
   and smaller than the list, or the file will not delete. With KEEP zero, or no number, it is deleted.
   */
  lemma FreshSurvivesExactly(files: seq<File>, f: File, keep: int, stuck: set<string>)
    requires UniqueNames(files + [f]) && IsDump(f) && OlderThan(files, f.mtime)
    ensures f in AfterPrune(files + [f], keep, stuck) <==>
              KeepsNewest(keep, |ListBackups(files + [f])|) || f.name in stuck
  {
    hide ListBackups, Without, NotStuck, AfterPrune;
    var all := files + [f];
    var list := ListBackups(all);
    assert f in all;
    FreshIsListedFirst(files, f);
    ListIsDistinct(all);
    PruneRemovesExactly(all, keep, stuck, f);
    OnlyOnce(list, f, SliceStart(keep, |list|));
  }

  /** A failing `pg_dump` that leaves part of a file leaves it as the newest recovery point on the list. */
  lemma PartialFileIsListedFirst(files: seq<File>, name: string, now: int, part: nat)
    requires IsDumpName(name) && OlderThan(files, now)
    ensures var after := AfterTake(files, name, now, DumpFailed(Some(part)));
            && ListBackups(after) != [] && ListBackups(after)[0] == File(name, now, part, false)
            && HasRecentBackup(after, now, 60) == Some(File(name, now, part, false))
  {
    FreshIsListedFirst(files, File(name, now, part, false));
  }

  // ---------------------------------------------------------------------------------------
  // Retention over any history

  /** One run: a take, and a prune if it verified. */
  datatype Night = Night(name: string, now: int, how: Taking, keep: int, stuck: set<string>)

  function AfterNight(files: seq<File>, night: Night): seq<File> {
    var taken := AfterTake(files, night.name, night.now, night.how);
    if night.how.Verified? then AfterPrune(taken, night.keep, night.stuck) else taken
  }

  function AfterNights(nights: seq<Night>): seq<File> {
    if nights == [] then [] else AfterNight(AfterNights(nights[..|nights| - 1]), nights[|nights| - 1])
  }

  function Successes(nights: seq<Night>): nat {
    if nights == [] then 0 else Successes(nights[..|nights| - 1]) + if nights[|nights| - 1].how.Verified? then 1 else 0
  }

  /** A failure that leaves no file behind. */
  predicate LeavesNothing(how: Taking) {
    match how
    case DumpFailed(partial) => partial.None?
    case NoOutput(emptyFile) => !emptyFile
    case Unreadable(_, stuck) => !stuck
    case _ => true
  }

  /** The clock moves on, names are dump names never used before, and KEEP is the same positive number. */
  ghost predicate GoodNights(nights: seq<Night>, keep: int) {
    nights == [] ||
    var n := |nights| - 1;
    var files := AfterNights(nights[..n]);
    && GoodNights(nights[..n], keep) && nights[n].keep == keep
    && IsDumpName(nights[n].name) && OlderThan(files, nights[n].now)
    && forall i :: 0 <= i < |files| ==> files[i].name != nights[n].name
  }

  ghost predicate AllReadBack(files: seq<File>) { forall i :: 0 <= i < |files| ==> files[i].readBack }

  ghost predicate AllDumps(files: seq<File>) { forall i :: 0 <= i < |files| ==> IsDump(files[i]) }

  lemma {:induction false} WithoutIsSubset(files: seq<File>, names: set<string>)
    ensures UniqueNames(files) ==> UniqueNames(Without(files, names))
    ensures AllDumps(files) ==> AllDumps(Without(files, names))
    ensures AllReadBack(files) ==> AllReadBack(Without(files, names))
    decreases |files|
  {
    hide IsDumpName;
    if files != [] {
      var n := |files| - 1;
      WithoutIsSubset(files[..n], names);
      assert files == files[..n] + [files[n]];
      if UniqueNames(files) {
        forall i | 0 <= i < |Without(files[..n], names)| ensures Without(files[..n], names)[i].name != files[n].name {
          var g := Without(files[..n], names)[i];
          assert g in Without(files[..n], names);
          WithoutKeeps(files[..n], names, g);
        }
      }
    }
  }

  /** The volume after any history: unique dump names, and everything read back if failures leave nothing. */
  lemma {:induction false} VolumeIsSound(nights: seq<Night>, keep: int)
    requires GoodNights(nights, keep)
    ensures UniqueNames(AfterNights(nights)) && AllDumps(AfterNights(nights))
    ensures (forall i :: 0 <= i < |nights| ==> LeavesNothing(nights[i].how)) ==> AllReadBack(AfterNights(nights))
    decreases |nights|
  {
    hide AfterPrune, OlderThan, AfterTake, UniqueNames, AllDumps, AllReadBack, LeavesNothing, IsDumpName;
    if nights == [] {
      EmptyVolume();
    } else {
      var n := |nights| - 1;
      VolumeIsSound(nights[..n], keep);
      var night, files := nights[n], AfterNights(nights[..n]);
      var taken := AfterTake(files, night.name, night.now, night.how);
      TakenIsSound(files, night);
      assert forall i :: 0 <= i < n ==> nights[..n][i] == nights[i];
      PruneIsWithout(taken, night.keep, night.stuck);
    }
  }

  lemma EmptyVolume()
    ensures UniqueNames([]) && AllDumps([]) && AllReadBack([])
  {
  }

  lemma TakenIsSound(files: seq<File>, night: Night)
    requires UniqueNames(files) && AllDumps(files) && IsDumpName(night.name)
    requires forall i :: 0 <= i < |files| ==> files[i].name != night.name
    ensures var taken := AfterTake(files, night.name, night.now, night.how);
            && UniqueNames(taken) && AllDumps(taken)
            && (AllReadBack(files) && LeavesNothing(night.how) ==> AllReadBack(taken))
  {
    hide IsDumpName;
  }

  lemma PruneIsWithout(files: seq<File>, keep: int, stuck: set<string>)
    ensures UniqueNames(files) ==> UniqueNames(AfterPrune(files, keep, stuck))
    ensures AllDumps(files) ==> AllDumps(AfterPrune(files, keep, stuck))
    ensures AllReadBack(files) ==> AllReadBack(AfterPrune(files, keep, stuck))
  {
    hide UniqueNames, AllDumps, AllReadBack, Doomed, Names, Without;
    WithoutIsSubset(files, Names(Doomed(files, keep, stuck)));
  }

  /** Removing a file for each of at most `k` names leaves all but `k`. */
  lemma {:induction false} WithoutCount(files: seq<File>, names: set<string>)
    requires UniqueNames(files)
    ensures |Without(files, names)| + |names| >= |files|
    decreases |files|
  {
    if files != [] {
      var n := |files| - 1;
      if files[n].name in names {
        WithoutCount(files[..n], names - {files[n].name});
        SameWithout(files[..n], names, files[n].name);
      } else {
        WithoutCount(files[..n], names);
      }
    }
  }

  lemma {:induction false} SameWithout(files: seq<File>, names: set<string>, gone: string)
    requires forall i :: 0 <= i < |files| ==> files[i].name != gone
    ensures Without(files, names) == Without(files, names - {gone})
    decreases |files|
  {
    if files != [] { SameWithout(files[..|files| - 1], names, gone); }
  }

  lemma {:induction false} FewNames(files: seq<File>)
    ensures |Names(files)| <= |files|
    decreases |files|
  {
    if files != [] {
      var n := |files| - 1;
      FewNames(files[..n]);
      NamesOfLonger(files[..n], files[n]);
      assert files == files[..n] + [files[n]];
    } else {
      assert Names(files) == {};
    }
  }

  lemma {:induction false} FewNotStuck(files: seq<File>, stuck: set<string>)
    ensures |NotStuck(files, stuck)| <= |files|
    decreases |files|
  {
    if files != [] { FewNotStuck(files[..|files| - 1], stuck); }
  }

  lemma {:induction false} DumpsOfAll(files: seq<File>)
    requires AllDumps(files)
    ensures Dumps(files) == files
    decreases |files|
  {
    hide IsDumpName;
    if files != [] {
      DumpsOfAll(files[..|files| - 1]);
      assert files == files[..|files| - 1] + [files[|files| - 1]];
    }
  }

  /** Prune with a positive KEEP leaves at least KEEP files, or all there were. */
  lemma PruneLeavesKeep(files: seq<File>, keep: int, stuck: set<string>)
    requires UniqueNames(files) && AllDumps(files) && keep >= 1
    ensures |AfterPrune(files, keep, stuck)| >= if |files| <= keep then |files| else keep
  {
    hide UniqueNames, AllDumps, Without, NotStuck, Names, Sort, Dumps;
    DumpsOfAll(files);
    SortKeeps(NewestFirst(), files);
    var list := ListBackups(files);
    assert list == Sort(NewestFirst(), files);
    SameElements(list, files);
    var tail := list[SliceStart(keep, |list|)..];
    FewNotStuck(tail, stuck);
    FewNames(NotStuck(tail, stuck));
    WithoutCount(files, Names(NotStuck(tail, stuck)));
  }

  /**
   Over any history at least KEEP files are kept, or as many as takes ever succeeded, counting what
   failed dumps left behind; and all of them were read back when failures leave nothing.
   */
  lemma {:induction false} RetentionHolds(nights: seq<Night>, keep: int)
    requires GoodNights(nights, keep) && keep >= 1
    ensures |AfterNights(nights)| >= if Successes(nights) <= keep then Successes(nights) else keep
    ensures (forall i :: 0 <= i < |nights| ==> LeavesNothing(nights[i].how)) ==> AllReadBack(AfterNights(nights))
    decreases |nights|
  {
    hide AfterPrune, OlderThan, UniqueNames, AllDumps, AllReadBack, IsDumpName, LeavesNothing;
    VolumeIsSound(nights, keep);
    if nights != [] {
      var n := |nights| - 1;
      RetentionHolds(nights[..n], keep);
      var night, files := nights[n], AfterNights(nights[..n]);
      if night.how.Verified? {
        VolumeIsSound(nights[..n], keep);
        OneMoreFile(files, File(night.name, night.now, night.how.bytes, true));
        PruneLeavesKeep(AfterTake(files, night.name, night.now, night.how), keep, night.stuck);
      }
    }
  }

  lemma OneMoreFile(files: seq<File>, f: File)
    requires UniqueNames(files) && AllDumps(files) && IsDump(f)
    requires forall i :: 0 <= i < |files| ==> files[i].name != f.name
    ensures UniqueNames(files + [f]) && AllDumps(files + [f])
  {
    hide IsDumpName;
  }

  lemma ThreeListed(a: File, b: File, c: File)
    requires IsDump(a) && IsDump(b) && IsDump(c) && a.mtime < b.mtime < c.mtime
    ensures ListBackups([a, b, c]) == [c, b, a]
  {
    hide IsDumpName, Sort, Dumps;
    var files, list := [a, b, c], [c, b, a];
    DumpsOfAll(files);
    SortSortsNewestFirst(files);
    SortedIsUnique(NewestFirst(), list, Sort(NewestFirst(), files));
  }

  /** A prune that deletes a recovery point that was read back and keeps a listed file that was not. */
  ghost predicate CrowdsOut(files: seq<File>, keep: int) {
    exists f, g :: f in files && g in files && LostFor(files, keep, f, g)
  }

  ghost predicate LostFor(files: seq<File>, keep: int, f: File, g: File) {
    && IsDump(f) && f.readBack && f !in AfterPrune(files, keep, {})
    && IsDump(g) && !g.readBack && g in AfterPrune(files, keep, {})
  }

  lemma TailHas(list: seq<File>, keep: nat)
    requires keep <= |list|
    ensures forall i :: keep <= i < |list| ==> list[i] in list[keep..]
  {
    forall i | keep <= i < |list| ensures list[i] in list[keep..] { assert list[keep..][i - keep] == list[i]; }
  }

  ghost predicate Across(list: seq<File>, keep: int, i: int, j: int) {
    0 <= i < keep <= j < |list| && !list[i].readBack && list[j].readBack
  }

  lemma CrowdedAcross(files: seq<File>, keep: int, f: File, g: File) returns (i: int, j: int)
    requires UniqueNames(files) && keep >= 1 && f in files && g in files && LostFor(files, keep, f, g)
    ensures Across(ListBackups(files), keep, i, j)
  {
    hide ListBackups, AfterPrune, IsDumpName;
    var list := ListBackups(files);
    PruneRemovesExactly(files, keep, {}, f);
    PruneRemovesExactly(files, keep, {}, g);
    ListedAre(files, g);
    j :| keep <= j < |list| && list[j] == f;
    i :| 0 <= i < |list| && list[i] == g;
    TailHas(list, keep);
  }

  lemma AcrossCrowds(files: seq<File>, keep: int, i: int, j: int)
    requires UniqueNames(files) && keep >= 1 && Across(ListBackups(files), keep, i, j)
    ensures CrowdsOut(files, keep)
  {
    hide ListBackups, AfterPrune, IsDumpName;
    var list := ListBackups(files);
    var f, g := list[j], list[i];
    ListedAre(files, f);
    ListedAre(files, g);
    ListIsDistinct(files);
    TailHas(list, keep);
    assert forall k :: 0 <= k < |list| - keep ==> list[keep..][k] == list[keep + k];
    PruneRemovesExactly(files, keep, {}, f);
    PruneRemovesExactly(files, keep, {}, g);
    assert LostFor(files, keep, f, g);
  }

  /**
   Left-over parts count towards KEEP: they cost a good recovery point exactly when one of them is
   listed before position KEEP and a good point at or after it.
   */
  lemma CrowdsOutExactly(files: seq<File>, keep: int)
    requires UniqueNames(files) && keep >= 1
    ensures CrowdsOut(files, keep) <==> exists i, j :: Across(ListBackups(files), keep, i, j)
  {
    hide ListBackups, LostFor, Across;
    if CrowdsOut(files, keep) {
      var f, g :| f in files && g in files && LostFor(files, keep, f, g);
      var i, j := CrowdedAcross(files, keep, f, g);
    }
    if exists i, j :: Across(ListBackups(files), keep, i, j) {
      var i, j :| Across(ListBackups(files), keep, i, j);
      AcrossCrowds(files, keep, i, j);
    }
  }

  /** With KEEP two, a partial dump pushes out a good recovery point. */
  lemma PartialFilesCrowdOut(good: File, part: File, last: File)
    requires IsDump(good) && IsDump(part) && IsDump(last) && UniqueNames([good, part, last])
    requires good.mtime < part.mtime < last.mtime
    ensures var after := AfterPrune([good, part, last], 2, {});
            good !in after && part in after && last in after
  {
    hide ListBackups, AfterPrune, IsDumpName;
    var files := [good, part, last];
    ThreeListed(good, part, last);
    assert [last, part, good][2..] == [good];
    assert good in files && part in files && last in files;
    PruneRemovesExactly(files, 2, {}, good);
    PruneRemovesExactly(files, 2, {}, part);
    PruneRemovesExactly(files, 2, {}, last);
  }

  lemma SortSortsNewestFirst(files: seq<File>)
    ensures Sorted(NewestFirst(), Sort(NewestFirst(), files)) && multiset(Sort(NewestFirst(), files)) == multiset(files)
  {
    NewestFirstIsOrder();
    SortSorts(NewestFirst(), files);
  }
}

/// The list of recently opened clips (UI/Common/RecentFiles.cs). Entries are structs, so an
/// entry returned by FindEntry is a copy; the clock is a parameter.
module RecentFiles {
  datatype Option<T> = None | Some(value: T)

  /** A recent-file entry: the clip's path, the clip's type name and when it was last opened
      (DateTime ticks). */
  datatype RecentFileEntry = RecentFileEntry(path: string, clipType: string, lastOpened: int)
  {
    /** Touch: the entry with LastOpened set to the given time, or to the clock when none is given. */
    function Touch(touchTime: Option<int>, now: int): (e: RecentFileEntry)
      ensures e.path == path && e.clipType == clipType
      ensures e.lastOpened == (if touchTime.Some? then touchTime.value else now)
    {
      this.(lastOpened := if touchTime.Some? then touchTime.value else now)
    }
  }

  const MaxEntries: nat := 10

  ghost predicate SortedByLastOpened(s: seq<RecentFileEntry>) {
    forall i, j :: 0 <= i < j < |s| ==> s[i].lastOpened <= s[j].lastOpened
  }

  /** e inserted into a list sorted by LastOpened, before the first entry that is not older. */
  function Insert(s: seq<RecentFileEntry>, e: RecentFileEntry): (r: seq<RecentFileEntry>)
    requires SortedByLastOpened(s)
    ensures |r| == |s| + 1 && (r[0] == e || (s != [] && r[0] == s[0]))
    ensures SortedByLastOpened(r) && multiset(r) == multiset(s) + multiset{e}
  {
    if s == [] then [e]
    else if e.lastOpened <= s[0].lastOpened then
      SortedCons(e, s);
      [e] + s
    else
      assert s == [s[0]] + s[1..];
      var rest := Insert(s[1..], e);
      SortedCons(s[0], rest);
      [s[0]] + rest
  }

  lemma {:induction false} SortedCons(x: RecentFileEntry, s: seq<RecentFileEntry>)
    requires SortedByLastOpened(s) && (s == [] || x.lastOpened <= s[0].lastOpened)
    ensures SortedByLastOpened([x] + s)
  {
  }

  /** List.Sort with DateTime.Compare on LastOpened: ascending, oldest first. List.Sort is not
      stable; this insertion sort fixes one order among entries opened at the same time. */
  function SortByLastOpened(s: seq<RecentFileEntry>): (r: seq<RecentFileEntry>)
    ensures SortedByLastOpened(r) && multiset(r) == multiset(s) && |r| == |s|
  {
    if s == [] then []
    else
      assert s == [s[0]] + s[1..];
      Insert(SortByLastOpened(s[1..]), s[0])
  }

  /** The index of the first entry with the given path, if any. */
  function IndexOfPath(s: seq<RecentFileEntry>, path: string): (r: Option<nat>)
    ensures r.Some? ==> r.value < |s| && s[r.value].path == path
                        && forall j :: 0 <= j < r.value ==> s[j].path != path
    ensures r.None? ==> forall j :: 0 <= j < |s| ==> s[j].path != path
  {
    if s == [] then None
    else if s[0].path == path then Some(0)
    else match IndexOfPath(s[1..], path)
         case None => None
         case Some(i) => Some(i + 1)
  }

  /** Sort followed by RemoveRange(maxEntries, Count - maxEntries): the oldest MaxEntries entries. */
  function Trimmed(s: seq<RecentFileEntry>): (r: seq<RecentFileEntry>)
    ensures |r| == (if |s| > MaxEntries then MaxEntries else |s|)
    ensures SortedByLastOpened(r) && multiset(r) <= multiset(s)
    ensures forall x, y :: x in r && y in multiset(s) - multiset(r) ==> x.lastOpened <= y.lastOpened
  {
    var t := SortByLastOpened(s);
    if |t| > MaxEntries then
      SplitSorted(t, MaxEntries);
      t[..MaxEntries]
    else t
  }

  /** Cutting a sorted list after k entries: the kept and the cut entries make up the list, and
      no kept entry is newer than a cut one. */
  lemma {:induction false} SplitSorted(t: seq<RecentFileEntry>, k: nat)
    requires SortedByLastOpened(t) && k <= |t|
    ensures multiset(t) - multiset(t[..k]) == multiset(t[k..])
    ensures forall x, y :: x in t[..k] && y in multiset(t[k..]) ==> x.lastOpened <= y.lastOpened
  {
    assert t == t[..k] + t[k..];
    forall x, y | x in t[..k] && y in multiset(t[k..])
      ensures x.lastOpened <= y.lastOpened
    {
      var i :| 0 <= i < k && t[i] == x;
      var j :| k <= j < |t| && t[j] == y;
    }
  }

  /** OnClipOpened as written: an existing entry is touched on a copy, which leaves the list as
      it was; a new path is appended; then the list is sorted and trimmed. */
  function Opened(entries: seq<RecentFileEntry>, path: string, clipType: string, now: int): seq<RecentFileEntry> {
    match IndexOfPath(entries, path)
    case Some(_) => Trimmed(entries)
    case None => Trimmed(entries + [RecentFileEntry(path, clipType, now)])
  }

  /** Opening a clip that is already listed changes no entry: Touch runs on a copy, so the
      stored LastOpened stays as it was and the list only loses entries to trimming. */
  lemma {:induction false} TouchHasNoEffect(entries: seq<RecentFileEntry>, path: string, clipType: string, now: int)
    requires IndexOfPath(entries, path).Some?
    ensures multiset(Opened(entries, path, clipType, now)) <= multiset(entries)
    ensures |entries| <= MaxEntries ==> multiset(Opened(entries, path, clipType, now)) == multiset(entries)
  {
  }

  /** A new path adds exactly one entry before the list is sorted and trimmed. */
  lemma {:induction false} NewPathAddsOne(entries: seq<RecentFileEntry>, path: string, clipType: string, now: int)
    requires IndexOfPath(entries, path).None?
    ensures var r := Opened(entries, path, clipType, now);
            multiset(r) <= multiset(entries) + multiset{RecentFileEntry(path, clipType, now)}
            && |r| == (if |entries| + 1 > MaxEntries then MaxEntries else |entries| + 1)
            && (|entries| < MaxEntries ==> RecentFileEntry(path, clipType, now) in r)
  {
    var e := RecentFileEntry(path, clipType, now);
    if |entries| < MaxEntries {
      assert e in multiset(entries + [e]);
    }
  }

  /** Once MaxEntries older entries are listed, a newly opened clip is dropped straight away:
      the ascending sort puts it last and the trim keeps the first MaxEntries. */
  lemma {:induction false} NewestDroppedWhenFull(entries: seq<RecentFileEntry>, path: string, clipType: string, now: int)
    requires IndexOfPath(entries, path).None? && |entries| >= MaxEntries
    requires forall i :: 0 <= i < |entries| ==> entries[i].lastOpened < now
    ensures forall e :: e in Opened(entries, path, clipType, now) ==> e.path != path
  {
    var x := RecentFileEntry(path, clipType, now);
    var s := entries + [x];
    AppendedNewest(entries, x);
    var t := SortByLastOpened(s);
    NewestNotKept(t, MaxEntries, x);
    var r := t[..MaxEntries];
    assert Opened(entries, path, clipType, now) == r;
    forall e | e in r
      ensures e.path != path
    {
      assert e in multiset(t);
    }
  }

  /** An entry appended to older entries with other paths occurs once and is the newest. */
  lemma {:induction false} AppendedNewest(entries: seq<RecentFileEntry>, x: RecentFileEntry)
    requires forall i :: 0 <= i < |entries| ==> entries[i].lastOpened < x.lastOpened && entries[i].path != x.path
    ensures multiset(entries + [x])[x] == 1
    ensures forall y :: y in multiset(entries + [x]) && y != x ==> y.lastOpened < x.lastOpened && y.path != x.path
  {
    assert multiset(entries + [x]) == multiset(entries) + multiset{x};
    assert x !in entries;
  }

  /** In a sorted list, an entry that occurs once and is strictly newer than every other entry
      is not among the first k when some entry follows them. */
  lemma {:induction false} NewestNotKept(t: seq<RecentFileEntry>, k: nat, x: RecentFileEntry)
    requires SortedByLastOpened(t) && k < |t| && multiset(t)[x] == 1
    requires forall y :: y in multiset(t) && y != x ==> y.lastOpened < x.lastOpened
    ensures x !in t[..k]
  {
    assert t == t[..k] + t[k..];
    assert multiset(t) == multiset(t[..k]) + multiset(t[k..]);
    assert t[k] in multiset(t[k..]);
    forall i | 0 <= i < k
      ensures t[i] != x
    {
      assert t[i].lastOpened <= t[k].lastOpened;
      assert t[i] in multiset(t[..k]);
    }
  }

  /** The list the corrected OnClipOpened sorts: the stored entry touched, or the new one added. */
  function FixedBase(entries: seq<RecentFileEntry>, path: string, clipType: string, now: int): seq<RecentFileEntry> {
    match IndexOfPath(entries, path)
    case Some(i) => entries[i := entries[i].Touch(None, now)]
    case None => entries + [RecentFileEntry(path, clipType, now)]
  }

  /** The evidently intended OnClipOpened: the stored entry is touched, and the trim keeps the
      MaxEntries most recently opened entries. */
  function OpenedFixed(entries: seq<RecentFileEntry>, path: string, clipType: string, now: int): seq<RecentFileEntry> {
    var t := SortByLastOpened(FixedBase(entries, path, clipType, now));
    if |t| > MaxEntries then t[|t| - MaxEntries..] else t
  }

  /** With a clock that moves forward, the corrected list is still bounded and sorted, and the
      clip just opened is on it, stamped with the time it was opened. */
  lemma {:induction false} OpenedFixedKeepsClip(entries: seq<RecentFileEntry>, path: string, clipType: string, now: int)
    requires forall i :: 0 <= i < |entries| ==> entries[i].lastOpened < now
    ensures var r := OpenedFixed(entries, path, clipType, now);
            |r| <= MaxEntries && SortedByLastOpened(r)
            && exists e :: e in r && e.path == path && e.lastOpened == now
  {
    var t := SortByLastOpened(FixedBase(entries, path, clipType, now));
    var x := FixedBaseNewest(entries, path, clipType, now);
    LastIsNewest(t, x);
    KeepNewest(t);
  }

  /** The last MaxEntries entries of a sorted list are sorted and include its last entry. */
  lemma {:induction false} KeepNewest(t: seq<RecentFileEntry>)
    requires SortedByLastOpened(t) && |t| >= 1
    ensures var r := if |t| > MaxEntries then t[|t| - MaxEntries..] else t;
            |r| <= MaxEntries && SortedByLastOpened(r) && t[|t| - 1] in r
  {
    var r := if |t| > MaxEntries then t[|t| - MaxEntries..] else t;
    assert r[|r| - 1] == t[|t| - 1];
  }

  /** In a sorted list, an entry strictly newer than every other entry comes last. */
  lemma {:induction false} LastIsNewest(t: seq<RecentFileEntry>, x: RecentFileEntry)
    requires SortedByLastOpened(t) && x in multiset(t)
    requires forall y :: y in multiset(t) && y != x ==> y.lastOpened < x.lastOpened
    ensures |t| >= 1 && t[|t| - 1] == x
  {
    var i :| 0 <= i < |t| && t[i] == x;
    assert t[|t| - 1] in multiset(t);
  }

  /** The opened clip's entry is in the corrected base list, and every other entry there is older. */
  lemma {:induction false} FixedBaseNewest(entries: seq<RecentFileEntry>, path: string, clipType: string, now: int) returns (x: RecentFileEntry)
    requires forall i :: 0 <= i < |entries| ==> entries[i].lastOpened < now
    ensures var t := SortByLastOpened(FixedBase(entries, path, clipType, now));
            x in multiset(t) && x.path == path && x.lastOpened == now
            && forall y :: y in multiset(t) && y != x ==> y.lastOpened < now
  {
    var base := FixedBase(entries, path, clipType, now);
    match IndexOfPath(entries, path)
    case Some(i) =>
      x := entries[i].Touch(None, now);
      assert base[i] == x;
      forall y | y in multiset(base) && y != x
        ensures y.lastOpened < now
      {
        var j :| 0 <= j < |base| && base[j] == y;
      }
    case None =>
      x := RecentFileEntry(path, clipType, now);
      assert base[|entries|] == x;
      forall y | y in multiset(base) && y != x
        ensures y.lastOpened < now
      {
        var j :| 0 <= j < |base| && base[j] == y;
      }
  }

  class RecentFiles {
    var entries: seq<RecentFileEntry>

    constructor ()
      ensures entries == []
    {
      entries := [];
    }

    /** FindEntry: the first entry whose path is the clip's path, or null. */
    method FindEntry(path: string) returns (r: Option<RecentFileEntry>)
      ensures r.None? <==> forall j :: 0 <= j < |entries| ==> entries[j].path != path
      ensures r.Some? ==> exists i :: 0 <= i < |entries| && entries[i] == r.value && r.value.path == path
                                      && forall j :: 0 <= j < i ==> entries[j].path != path
    {
      var i := 0;
      while i < |entries|
        invariant 0 <= i <= |entries|
        invariant forall j :: 0 <= j < i ==> entries[j].path != path
      {
        if entries[i].path == path {
          return Some(entries[i]);
        }
        i := i + 1;
      }
      return None;
    }

    /** Sort: oldest first, then everything after the first MaxEntries entries is removed. */
    method Sort()
      modifies this
      ensures entries == Trimmed(old(entries))
    {
      entries := SortByLastOpened(entries);
      if |entries| > MaxEntries {
        entries := entries[..MaxEntries];
      }
    }

    /** OnClipOpened: touch the clip's entry (on a copy) or add a new one, then sort and trim. */
    method OnClipOpened(path: string, clipType: string, now: int)
      modifies this
      ensures entries == Opened(old(entries), path, clipType, now)
    {
      var entry := FindEntry(path);
      if entry.Some? {
        var touched := entry.value.Touch(None, now);
      } else {
        entries := entries + [RecentFileEntry(path, clipType, now)];
      }
      Sort();
    }
  }
}

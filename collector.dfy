/**
 The process listing of `get_processes_info`: keep the processes whose name
 contains the filter, copy each into a `ProcessInfo`, sort the records in
 place with the comparator the sort key selects (`sort_by` is a stable
 sort), then truncate to the limit.

 The process table of the system-information provider is given as a
 sequence of `Process` values, in the order its iterator yields them.
 */
module Collector {
  import opened Prelude
  import opened Text
  import opened Models
  import opened Args
  import opened Sorting
  import Iter

  /** One process as the provider reports it: a value of `sys.processes()`. */
  datatype Process = Process(pid: nat, name: Bytes, cpuUsage: int, memory: U64)

  // ---------------------------------------------------------------------------
  // Filter and copy
  // ---------------------------------------------------------------------------

  /** The filter keeps a process with this name: no filter, or a substring match. */
  predicate Admits(filter: Option<Bytes>, name: Bytes)
  {
    match filter
    case None => true
    case Some(f) => Contains(name, f)
  }

  /** The record built for one process: the pid rendered as text, the rest copied as reported. */
  function ToInfo(p: Process): (info: ProcessInfo)
    ensures info.name == p.name && info.cpuUsage == p.cpuUsage && info.memory == p.memory
  {
    ProcessInfo(Decimal(p.pid), p.name, p.cpuUsage, p.memory)
  }

  /** The pid text of the record reads back as the pid, so no two processes share one. */
  lemma {:induction false} ToInfoPidReadsBack(p: Process)
    ensures ParseDecimal(ToInfo(p).pid) == p.pid
  {
    DecimalRoundTrip(p.pid);
  }

  /** The closure handed to `filter`. */
  function Keep(filter: Option<Bytes>): Process -> bool
  {
    (p: Process) => Admits(filter, p.name)
  }

  /**
   The `filter(..).map(..).collect()` chain: the records of the admitted
   processes, in the provider's order. The laws of the chain (each admitted
   process copied exactly once, in order) are those of `Iter.FilterMap`.
   */
  function FilterMap(procs: seq<Process>, filter: Option<Bytes>): (kept: seq<ProcessInfo>)
    ensures |kept| <= |procs|
    ensures forall i :: 0 <= i < |kept| ==> Admits(filter, kept[i].name)
    ensures filter.None? ==> |kept| == |procs|
    ensures filter.None? ==> forall i :: 0 <= i < |kept| ==> kept[i] == ToInfo(procs[i])
  {
    var kept := Iter.FilterMap(procs, Keep(filter), ToInfo);
    Iter.FilterMapMembers(procs, Keep(filter), ToInfo);
    assert forall i :: 0 <= i < |kept| ==> kept[i] in kept;
    if filter.None? then
      Iter.FilterMapKeepingAll(procs, Keep(filter), ToInfo);
      kept
    else kept
  }

  // ---------------------------------------------------------------------------
  // The comparators of `sort_by`
  // ---------------------------------------------------------------------------

  /**
   The comparator for `sort` returns `Less` for `(a, b)`: `a` belongs before
   `b`. CPU usage and memory compare in descending order, the pid text and
   the lowercased name in ascending byte order.
   */
  predicate Before(sort: SortBy, a: ProcessInfo, b: ProcessInfo)
  {
    match sort
    case Cpu => a.cpuUsage > b.cpuUsage
    case Memory => a.memory > b.memory
    case Pid => LexLess(a.pid, b.pid)
    case Name => LexLess(Lower(a.name), Lower(b.name))
  }

  /** The comparator for `sort` returns `Equal` for `(a, b)`. */
  predicate SameKey(sort: SortBy, a: ProcessInfo, b: ProcessInfo)
  {
    match sort
    case Cpu => a.cpuUsage == b.cpuUsage
    case Memory => a.memory == b.memory
    case Pid => a.pid == b.pid
    case Name => Lower(a.name) == Lower(b.name)
  }

  /** `a` may stand before `b` in a list sorted by `sort`, said field by field. */
  predicate InOrder(sort: SortBy, a: ProcessInfo, b: ProcessInfo)
  {
    match sort
    case Cpu => a.cpuUsage >= b.cpuUsage
    case Memory => a.memory >= b.memory
    case Pid => LexLessEq(a.pid, b.pid)
    case Name => LexLessEq(Lower(a.name), Lower(b.name))
  }

  /** Records with the same key are never strictly ordered. */
  lemma {:induction false} SameKeyNotBefore(sort: SortBy, a: ProcessInfo, b: ProcessInfo)
    requires SameKey(sort, a, b)
    ensures !Before(sort, a, b) && !Before(sort, b, a)
  {
    if sort.Pid? {
      LexLessIrreflexive(a.pid);
    } else if sort.Name? {
      LexLessIrreflexive(Lower(a.name));
    }
  }

  lemma {:induction false} BeforeAsymmetric(sort: SortBy, a: ProcessInfo, b: ProcessInfo)
    requires Before(sort, a, b)
    ensures !Before(sort, b, a)
  {
    if sort.Pid? {
      LexLessAsymmetric(a.pid, b.pid);
    } else if sort.Name? {
      LexLessAsymmetric(Lower(a.name), Lower(b.name));
    }
  }

  /** The comparator is total: records it does not order have the same key. */
  lemma {:induction false} NeitherBeforeIsSameKey(sort: SortBy, a: ProcessInfo, b: ProcessInfo)
    requires !Before(sort, a, b) && !Before(sort, b, a)
    ensures SameKey(sort, a, b)
  {
    if sort.Pid? && a.pid != b.pid {
      LexLessTotal(a.pid, b.pid);
    } else if sort.Name? && Lower(a.name) != Lower(b.name) {
      LexLessTotal(Lower(a.name), Lower(b.name));
    }
  }

  /** "Not after" is transitive, which makes `Before` a strict weak order. */
  lemma {:induction false} NotBeforeTransitive(sort: SortBy, a: ProcessInfo, b: ProcessInfo, c: ProcessInfo)
    requires !Before(sort, a, b) && !Before(sort, b, c)
    ensures !Before(sort, a, c)
  {
    if sort.Pid? && LexLess(a.pid, c.pid) {
      if b.pid != c.pid {
        LexLessTotal(b.pid, c.pid);
        LexLessTransitive(a.pid, c.pid, b.pid);
      }
    } else if sort.Name? && LexLess(Lower(a.name), Lower(c.name)) {
      if Lower(b.name) != Lower(c.name) {
        LexLessTotal(Lower(b.name), Lower(c.name));
        LexLessTransitive(Lower(a.name), Lower(c.name), Lower(b.name));
      }
    }
  }

  /** `b` not before `a` is exactly the field-by-field order. */
  lemma {:induction false} NotBeforeIsInOrder(sort: SortBy, a: ProcessInfo, b: ProcessInfo)
    ensures !Before(sort, b, a) <==> InOrder(sort, a, b)
  {
    if sort.Pid? {
      if a.pid != b.pid { LexLessTotal(a.pid, b.pid); }
      if LexLess(a.pid, b.pid) { LexLessAsymmetric(a.pid, b.pid); }
      LexLessIrreflexive(a.pid);
    } else if sort.Name? {
      var ka, kb := Lower(a.name), Lower(b.name);
      if ka != kb { LexLessTotal(ka, kb); }
      if LexLess(ka, kb) { LexLessAsymmetric(ka, kb); }
      LexLessIrreflexive(ka);
    }
  }

  /** The comparator `get_processes_info` hands to `sort_by` for `sort`. */
  function Comparator(sort: SortBy): (ProcessInfo, ProcessInfo) -> bool
  {
    (a: ProcessInfo, b: ProcessInfo) => Before(sort, a, b)
  }

  /** Each of the four comparators is a consistent ordering, so the sort laws apply to it. */
  lemma {:induction false} ComparatorIsStrictWeakOrder(sort: SortBy)
    ensures StrictWeakOrder(Comparator(sort))
  {
    var less := Comparator(sort);
    forall a, b | less(a, b)
      ensures !less(b, a)
    {
      BeforeAsymmetric(sort, a, b);
    }
    forall a, b, c | !less(a, b) && !less(b, c)
      ensures !less(a, c)
    {
      NotBeforeTransitive(sort, a, b, c);
    }
  }

  /** The comparator returns `Equal` exactly for records with the same key field. */
  lemma {:induction false} EquivIsSameKey(sort: SortBy, a: ProcessInfo, b: ProcessInfo)
    ensures Equiv(Comparator(sort), a, b) <==> SameKey(sort, a, b)
  {
    if SameKey(sort, a, b) {
      SameKeyNotBefore(sort, a, b);
    }
    if !Before(sort, a, b) && !Before(sort, b, a) {
      NeitherBeforeIsSameKey(sort, a, b);
    }
  }

  // ---------------------------------------------------------------------------
  // The whole listing
  // ---------------------------------------------------------------------------

  /** `Vec::truncate(l)`: keep the first `l` records; no effect when there are fewer. */
  function Truncate(s: seq<ProcessInfo>, limit: Option<nat>): (r: seq<ProcessInfo>)
    ensures limit.None? ==> r == s
    ensures limit.Some? ==> |r| == (if limit.value < |s| then limit.value else |s|)
    ensures r == s[..|r|]
  {
    match limit
    case None => s
    case Some(l) => if l < |s| then s[..l] else s
  }

  /** The filtered copies, sorted by `sort`: the `Vec` just before truncation. */
  function SortedInfo(procs: seq<Process>, filter: Option<Bytes>, sort: SortBy): (sorted: seq<ProcessInfo>)
    ensures multiset(sorted) == multiset(FilterMap(procs, filter))
  {
    StableSort(Comparator(sort), FilterMap(procs, filter))
  }

  /** What `get_processes_info` returns. */
  function ProcessesInfo(procs: seq<Process>, filter: Option<Bytes>, limit: Option<nat>, sort: SortBy): (r: seq<ProcessInfo>)
    ensures |r| <= |FilterMap(procs, filter)|
    ensures r == SortedInfo(procs, filter, sort)[..|r|]
  {
    Truncate(SortedInfo(procs, filter, sort), limit)
  }

  /** Every listed record is the copy of a process whose name the filter admits. */
  lemma {:induction false} ProcessesInfoFiltered(procs: seq<Process>, filter: Option<Bytes>, limit: Option<nat>, sort: SortBy)
    ensures var r := ProcessesInfo(procs, filter, limit, sort);
      forall i :: 0 <= i < |r| ==>
        Admits(filter, r[i].name) && exists p :: p in procs && Admits(filter, p.name) && r[i] == ToInfo(p)
  {
    var sorted := SortedInfo(procs, filter, sort);
    var r := ProcessesInfo(procs, filter, limit, sort);
    Iter.FilterMapMembers(procs, Keep(filter), ToInfo);
    forall i | 0 <= i < |r|
      ensures Admits(filter, r[i].name) && exists p :: p in procs && Admits(filter, p.name) && r[i] == ToInfo(p)
    {
      assert r[i] == sorted[i];
      assert r[i] in multiset(sorted);
      assert r[i] in FilterMap(procs, filter);
    }
  }

  /**
   Without a limit nothing is dropped or duplicated: the listing is a
   permutation of the filtered copies, and of all processes when there is
   no filter.
   */
  lemma {:induction false} ProcessesInfoKeepsAll(procs: seq<Process>, filter: Option<Bytes>, sort: SortBy)
    ensures multiset(ProcessesInfo(procs, filter, None, sort)) == multiset(FilterMap(procs, filter))
    ensures filter.None? ==> |ProcessesInfo(procs, filter, None, sort)| == |procs|
    ensures forall p :: p in procs && Admits(filter, p.name) ==> ToInfo(p) in ProcessesInfo(procs, filter, None, sort)
  {
    var kept := FilterMap(procs, filter);
    var r := ProcessesInfo(procs, filter, None, sort);
    Iter.FilterMapMembers(procs, Keep(filter), ToInfo);
    forall p | p in procs && Admits(filter, p.name)
      ensures ToInfo(p) in r
    {
      assert ToInfo(p) in multiset(kept);
    }
  }

  /** A limit keeps the first `min(l, n)` sorted records; a limit of zero lists nothing. */
  lemma {:induction false} ProcessesInfoLimit(procs: seq<Process>, filter: Option<Bytes>, l: nat, sort: SortBy)
    ensures var r := ProcessesInfo(procs, filter, Some(l), sort);
      var n := |FilterMap(procs, filter)|;
      |r| == (if l < n then l else n) && r == SortedInfo(procs, filter, sort)[..|r|]
    ensures l == 0 ==> ProcessesInfo(procs, filter, Some(l), sort) == []
  {
  }

  /** The listing is ordered by the chosen key: CPU and memory descending, pid text and lowercased name ascending. */
  lemma {:induction false} ProcessesInfoOrdered(procs: seq<Process>, filter: Option<Bytes>, limit: Option<nat>, sort: SortBy)
    ensures var r := ProcessesInfo(procs, filter, limit, sort);
      forall i, j :: 0 <= i < j < |r| ==> InOrder(sort, r[i], r[j])
  {
    var sorted := SortedInfo(procs, filter, sort);
    var r := ProcessesInfo(procs, filter, limit, sort);
    ComparatorIsStrictWeakOrder(sort);
    StableSortSorted(Comparator(sort), FilterMap(procs, filter));
    forall i, j | 0 <= i < j < |r|
      ensures InOrder(sort, r[i], r[j])
    {
      assert !Before(sort, sorted[j], sorted[i]);
      NotBeforeIsInOrder(sort, sorted[i], sorted[j]);
    }
  }

  /**
   Records with equal keys are listed in the order the provider yielded
   them: each key class of the listing is a prefix of that of the filtered
   copies, and all of it when there is no limit.
   */
  lemma {:induction false} ProcessesInfoStable(procs: seq<Process>, filter: Option<Bytes>, limit: Option<nat>, sort: SortBy, x: ProcessInfo)
    ensures var r := KeyClass(Comparator(sort), ProcessesInfo(procs, filter, limit, sort), x);
      var c := KeyClass(Comparator(sort), FilterMap(procs, filter), x);
      |r| <= |c| && r == c[..|r|] && (limit.None? ==> r == c)
  {
    var less := Comparator(sort);
    ComparatorIsStrictWeakOrder(sort);
    StableSortKeepsKeyClasses(less, FilterMap(procs, filter), x);
    KeyClassOfPrefix(less, SortedInfo(procs, filter, sort), |ProcessesInfo(procs, filter, limit, sort)|, x);
  }

  /**
   The sorted copies are the only ordered arrangement of the filtered copies
   that keeps equal-key records in input order: whichever stable algorithm
   `sort_by` runs, this is its result.
   */
  lemma {:induction false} SortedInfoIsTheStableSort(procs: seq<Process>, filter: Option<Bytes>, sort: SortBy, t: seq<ProcessInfo>)
    requires forall i, j :: 0 <= i < j < |t| ==> !Before(sort, t[j], t[i])
    requires forall x :: KeyClass(Comparator(sort), t, x) == KeyClass(Comparator(sort), FilterMap(procs, filter), x)
    ensures t == SortedInfo(procs, filter, sort)
  {
    ComparatorIsStrictWeakOrder(sort);
    assert Sorted(Comparator(sort), t);
    StableSortUnique(Comparator(sort), FilterMap(procs, filter), t);
  }

  /** Pids sort as text, not as numbers: pid 10 is listed before pid 9. */
  lemma {:induction false} PidOrderIsTextual(nine: Process, ten: Process)
    requires nine.pid == 9 && ten.pid == 10
    ensures ProcessesInfo([nine, ten], None, None, Pid) == [ToInfo(ten), ToInfo(nine)]
  {
    var a, b := ToInfo(nine), ToInfo(ten);
    assert Before(Pid, b, a) by {
      assert Decimal(10) == "10";
      assert a.pid == "9" && b.pid == "10";
    }
    var kept := FilterMap([nine, ten], None);
    assert kept == [a, b];
    StableSortPair(Comparator(Pid), a, b);
  }

  /** The promises of `get_processes_info` about the listing it returns, together. */
  lemma {:induction false} ProcessesInfoListing(procs: seq<Process>, filter: Option<Bytes>, limit: Option<nat>, sort: SortBy, r: seq<ProcessInfo>)
    requires r == ProcessesInfo(procs, filter, limit, sort)
    ensures forall i :: 0 <= i < |r| ==> Admits(filter, r[i].name)
    ensures forall i, j :: 0 <= i < j < |r| ==> InOrder(sort, r[i], r[j])
    ensures limit.None? ==> multiset(r) == multiset(FilterMap(procs, filter))
    ensures limit.Some? ==> |r| <= limit.value
  {
    ProcessesInfoFiltered(procs, filter, limit, sort);
    ProcessesInfoOrdered(procs, filter, limit, sort);
  }

  /**
   `get_processes_info`: filter and copy the provider's processes into a
   fresh `Vec`, sort it in place, truncate it to the limit.
   */
  method GetProcessesInfo(procs: seq<Process>, filter: Option<Bytes>, limit: Option<nat>, sort: SortBy)
    returns (processes: seq<ProcessInfo>)
    ensures processes == ProcessesInfo(procs, filter, limit, sort)
    ensures forall i :: 0 <= i < |processes| ==> Admits(filter, processes[i].name)
    ensures forall i, j :: 0 <= i < j < |processes| ==> InOrder(sort, processes[i], processes[j])
    ensures limit.None? ==> multiset(processes) == multiset(FilterMap(procs, filter))
    ensures limit.Some? ==> |processes| <= limit.value
  {
    var kept := FilterMap(procs, filter);
    var v := new ProcessInfo[|kept|](i requires 0 <= i < |kept| => kept[i]);
    assert v[..] == kept;
    SortInPlace(v, Comparator(sort));
    processes := v[..];
    assert processes == SortedInfo(procs, filter, sort);
    if limit.Some? && limit.value < |processes| {
      processes := processes[..limit.value];
    }
    ProcessesInfoListing(procs, filter, limit, sort, processes);
  }
}

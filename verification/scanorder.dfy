/** Scan ordering, `getSortedFiles` (magazine-ocr.py:15-48), over scans
    already discovered on disk: each scan is its path and its modification
    time, the time an abstract integer key. */
module ScanOrder {
  import opened Common

  datatype ScanFile = ScanFile(name: string, mtime: int)

  // ------------------------------------------------------------ by name

  /** Python's ordering of strings: lexicographic by character, a proper
      prefix first. */
  predicate NameLe(a: string, b: string)
    ensures a <= b ==> NameLe(a, b)
  {
    if a == [] then true
    else if b == [] then false
    else if a[0] != b[0] then a[0] < b[0]
    else NameLe(a[1..], b[1..])
  }

  lemma {:induction false} NameLeTotal(a: string, b: string)
    ensures NameLe(a, b) || NameLe(b, a)
  {
    if a != [] && b != [] && a[0] == b[0] {
      NameLeTotal(a[1..], b[1..]);
    }
  }

  lemma {:induction false} NameLeTransitive(a: string, b: string, c: string)
    requires NameLe(a, b) && NameLe(b, c)
    ensures NameLe(a, c)
  {
    if a != [] && b != [] && c != [] && a[0] == b[0] && b[0] == c[0] {
      NameLeTransitive(a[1..], b[1..], c[1..]);
    }
  }

  predicate SortedByName(fs: seq<ScanFile>) {
    forall i, j :: 0 <= i < j < |fs| ==> NameLe(fs[i].name, fs[j].name)
  }

  function Insert(f: ScanFile, sorted: seq<ScanFile>): (r: seq<ScanFile>)
    requires SortedByName(sorted)
    ensures SortedByName(r) && multiset(r) == multiset(sorted) + multiset{f}
    decreases |sorted|
  {
    if sorted == [] then [f]
    else if NameLe(f.name, sorted[0].name) then
      InsertFront(f, sorted);
      [f] + sorted
    else
      NameLeTotal(f.name, sorted[0].name);
      var rest := Insert(f, sorted[1..]);
      assert sorted == [sorted[0]] + sorted[1..];
      InsertBehind(sorted[0], f, sorted[1..], rest);
      [sorted[0]] + rest
  }

  lemma InsertFront(f: ScanFile, sorted: seq<ScanFile>)
    requires SortedByName(sorted) && sorted != [] && NameLe(f.name, sorted[0].name)
    ensures SortedByName([f] + sorted)
  {
    forall j | 0 < j <= |sorted| ensures NameLe(f.name, ([f] + sorted)[j].name) {
      if j > 1 {
        NameLeTransitive(f.name, sorted[0].name, sorted[j - 1].name);
      }
    }
  }

  lemma InsertBehind(head: ScanFile, f: ScanFile, tail: seq<ScanFile>, rest: seq<ScanFile>)
    requires SortedByName([head] + tail) && SortedByName(rest) && NameLe(head.name, f.name)
    requires multiset(rest) == multiset(tail) + multiset{f}
    ensures SortedByName([head] + rest)
  {
    forall j | 0 <= j < |rest| ensures NameLe(head.name, rest[j].name) {
      assert rest[j] in multiset(rest);
      if rest[j] != f {
        assert rest[j] in multiset(tail);
        assert rest[j] in tail;
        var i :| 0 <= i < |tail| && tail[i] == rest[j];
        assert ([head] + tail)[0] == head && ([head] + tail)[i + 1] == tail[i];
      }
    }
  }

  /** `sorted(files)`: the scans in ascending name order. */
  function SortByName(files: seq<ScanFile>): (r: seq<ScanFile>)
    ensures SortedByName(r) && multiset(r) == multiset(files)
    decreases |files|
  {
    if files == [] then []
    else
      assert files == [files[0]] + files[1..];
      Insert(files[0], SortByName(files[1..]))
  }

  // ------------------------------------------------------------ by date

  predicate DistinctMtimes(fs: seq<ScanFile>) {
    forall i, j :: 0 <= i < j < |fs| ==> fs[i].mtime != fs[j].mtime
  }

  predicate StrictlyByMtime(fs: seq<ScanFile>) {
    forall i, j :: 0 <= i < j < |fs| ==> fs[i].mtime < fs[j].mtime
  }

  predicate DistinctInts(s: seq<int>) {
    forall i, j :: 0 <= i < j < |s| ==> s[i] != s[j]
  }

  predicate Increasing(s: seq<int>) {
    forall i, j :: 0 <= i < j < |s| ==> s[i] < s[j]
  }

  /** `t` placed into an ascending list of keys before the first larger key. */
  function InsertKey(t: int, sorted: seq<int>): (r: seq<int>)
    ensures multiset(r) == multiset(sorted) + multiset{t}
    decreases |sorted|
  {
    if sorted == [] || t < sorted[0] then [t] + sorted
    else
      assert sorted == [sorted[0]] + sorted[1..];
      [sorted[0]] + InsertKey(t, sorted[1..])
  }

  lemma {:induction false} InsertKeyIncreasing(t: int, sorted: seq<int>)
    requires Increasing(sorted) && t !in sorted
    ensures Increasing(InsertKey(t, sorted))
    decreases |sorted|
  {
    if !(sorted == [] || t < sorted[0]) {
      var tail := sorted[1..];
      assert t !in tail;
      InsertKeyIncreasing(t, tail);
      var rest := InsertKey(t, tail);
      forall j | 0 <= j < |rest| ensures sorted[0] < rest[j] {
        assert rest[j] in multiset(rest);
        if rest[j] != t {
          assert rest[j] in tail;
          var m :| 0 <= m < |tail| && tail[m] == rest[j];
          assert tail[m] == sorted[m + 1];
        }
      }
    }
  }

  /** `sorted(list(set(keys)))` for keys that are already distinct: the same
      keys in strictly ascending order. */
  function SortKeys(keys: seq<int>): (r: seq<int>)
    requires DistinctInts(keys)
    ensures Increasing(r) && multiset(r) == multiset(keys)
    decreases |keys|
  {
    if keys == [] then []
    else
      assert keys == [keys[0]] + keys[1..];
      var rest := SortKeys(keys[1..]);
      assert keys[0] !in rest by {
        assert forall j :: 0 <= j < |keys[1..]| ==> keys[1..][j] == keys[j + 1];
        assert keys[0] !in keys[1..];
        assert keys[0] !in multiset(keys[1..]);
      }
      InsertKeyIncreasing(keys[0], rest);
      InsertKey(keys[0], rest)
  }

  /** Two scans with different times are different; a sequence whose
      elements are pairwise different holds each of them once. */
  lemma {:induction false} DistinctCounts(s: seq<ScanFile>, f: ScanFile)
    requires forall i, j :: 0 <= i < j < |s| ==> s[i] != s[j]
    ensures multiset(s)[f] == if f in s then 1 else 0
  {
    if s != [] {
      assert s == [s[0]] + s[1..];
      DistinctCounts(s[1..], f);
      if f == s[0] {
        assert f !in s[1..] by {
          forall j | 0 <= j < |s[1..]| ensures s[1..][j] != f {
            assert s[1..][j] == s[j + 1];
          }
        }
      }
    }
  }

  lemma SameMembersPermutation(a: seq<ScanFile>, b: seq<ScanFile>)
    requires forall i, j :: 0 <= i < j < |a| ==> a[i] != a[j]
    requires forall i, j :: 0 <= i < j < |b| ==> b[i] != b[j]
    requires forall f :: f in a <==> f in b
    ensures multiset(a) == multiset(b)
  {
    forall f ensures multiset(a)[f] == multiset(b)[f] {
      DistinctCounts(a, f);
      DistinctCounts(b, f);
    }
  }

  // ------------------------------------------------------------ the method

  /** A scan whose time is new keeps the prefix free of shared times
      exactly when it was before. */
  lemma DistinctMtimesExtend(files: seq<ScanFile>, i: nat)
    requires i < |files|
    requires forall j :: 0 <= j < i ==> files[j].mtime != files[i].mtime
    ensures DistinctMtimes(files[..i + 1]) <==> DistinctMtimes(files[..i])
  {
    if DistinctMtimes(files[..i]) {
      forall j, k | 0 <= j < k < i + 1 ensures files[j].mtime != files[k].mtime {
        if k < i {
          assert files[..i][j] == files[j] && files[..i][k] == files[k];
        }
      }
    } else {
      var j, k :| 0 <= j < k < i && files[..i][j].mtime == files[..i][k].mtime;
      assert files[..i + 1][j] == files[..i][j] && files[..i + 1][k] == files[..i][k];
    }
  }

  /** A scan whose time was already seen makes the prefix share a time. */
  lemma DistinctMtimesClash(files: seq<ScanFile>, i: nat, j: nat)
    requires j < i < |files| && files[j].mtime == files[i].mtime
    ensures !DistinctMtimes(files[..i + 1])
  {
    assert files[..i + 1][j] == files[j] && files[..i + 1][i] == files[i];
  }

  /** No scan after the `j`-th and before `end` has the same time. */
  predicate LastWithTime(files: seq<ScanFile>, j: nat, end: nat)
    requires j < end <= |files|
  {
    forall k :: j < k < end ==> files[k].mtime != files[j].mtime
  }

  /** What the dictionary loop keeps after its first `i` scans: `keys` holds
      each time seen once, in insertion order; `byTime` maps each to the scan
      at `seenAt`, the last scan with that time. */
  ghost predicate Indexed(files: seq<ScanFile>, i: nat, keys: seq<int>,
                          byTime: map<int, ScanFile>, seenAt: map<int, nat>)
    requires i <= |files|
  {
    && DistinctInts(keys)
    && (forall t :: t in byTime <==> t in keys)
    && (forall t :: t in byTime <==> t in seenAt)
    && (forall t :: t in seenAt ==> seenAt[t] < i && files[seenAt[t]] == byTime[t])
    && (forall t :: t in byTime ==> byTime[t].mtime == t)
    && (forall j :: 0 <= j < i ==> files[j].mtime in seenAt && j <= seenAt[files[j].mtime])
    && |keys| <= i
    && (|keys| == i <==> DistinctMtimes(files[..i]))
  }

  /** Storing a scan whose time is already a key. */
  lemma IndexSeen(files: seq<ScanFile>, i: nat, keys: seq<int>,
                  byTime: map<int, ScanFile>, seenAt: map<int, nat>)
    requires i < |files| && Indexed(files, i, keys, byTime, seenAt)
    requires files[i].mtime in byTime
    ensures Indexed(files, i + 1, keys, byTime[files[i].mtime := files[i]],
                    seenAt[files[i].mtime := i])
  {
    DistinctMtimesClash(files, i, seenAt[files[i].mtime]);
  }

  /** Storing a scan with a new time adds that time as the last key. */
  lemma IndexNew(files: seq<ScanFile>, i: nat, keys: seq<int>,
                 byTime: map<int, ScanFile>, seenAt: map<int, nat>)
    requires i < |files| && Indexed(files, i, keys, byTime, seenAt)
    requires files[i].mtime !in byTime
    ensures Indexed(files, i + 1, keys + [files[i].mtime], byTime[files[i].mtime := files[i]],
                    seenAt[files[i].mtime := i])
  {
    DistinctMtimesExtend(files, i);
  }

  /** What the finished loop gives. */
  lemma IndexDone(files: seq<ScanFile>, keys: seq<int>,
                  byTime: map<int, ScanFile>, seenAt: map<int, nat>)
    requires Indexed(files, |files|, keys, byTime, seenAt)
    ensures forall t :: t in byTime ==> byTime[t] in files
    ensures forall f :: f in files ==> f.mtime in byTime
    ensures forall j :: 0 <= j < |files| && LastWithTime(files, j, |files|) ==>
      byTime[files[j].mtime] == files[j]
    ensures |keys| == |files| <==> DistinctMtimes(files)
  {
    assert files[..|files|] == files;
    forall t | t in byTime ensures byTime[t] in files {
      assert files[seenAt[t]] == byTime[t];
    }
    forall j | 0 <= j < |files| && LastWithTime(files, j, |files|)
      ensures byTime[files[j].mtime] == files[j]
    {
      var k := seenAt[files[j].mtime];
      assert files[k].mtime == files[j].mtime;
    }
  }

  /** The dictionary `filesByTime` (magazine-ocr.py:30-33), as its keys in
      insertion order and the map itself: one key per time, holding the last
      scan seen with that time. It has as many keys as there are scans
      exactly when no two scans share a time. */
  method IndexByTime(files: seq<ScanFile>) returns (keys: seq<int>, filesByTime: map<int, ScanFile>)
    ensures DistinctInts(keys)
    ensures forall t :: t in filesByTime <==> t in keys
    ensures forall t :: t in filesByTime ==> filesByTime[t] in files && filesByTime[t].mtime == t
    ensures forall f :: f in files ==> f.mtime in filesByTime
    ensures forall j :: 0 <= j < |files| && LastWithTime(files, j, |files|) ==>
      filesByTime[files[j].mtime] == files[j]
    ensures |keys| <= |files|
    ensures |keys| == |files| <==> DistinctMtimes(files)
  {
    keys, filesByTime := [], map[];
    ghost var seenAt: map<int, nat> := map[];
    for i := 0 to |files|
      invariant Indexed(files, i, keys, filesByTime, seenAt)
    {
      var t := files[i].mtime;
      if t in filesByTime {
        IndexSeen(files, i, keys, filesByTime, seenAt);
      } else {
        IndexNew(files, i, keys, filesByTime, seenAt);
        keys := keys + [t];
      }
      filesByTime := filesByTime[t := files[i]];
      seenAt := seenAt[t := i];
    }
    IndexDone(files, keys, filesByTime, seenAt);
  }

  /** The list rebuilt from the dictionary in key order (magazine-ocr.py:37-39). */
  method InKeyOrder(filesByTime: map<int, ScanFile>, keys: seq<int>) returns (sortedFiles: seq<ScanFile>)
    requires forall k :: 0 <= k < |keys| ==> keys[k] in filesByTime
    ensures |sortedFiles| == |keys|
    ensures forall k :: 0 <= k < |keys| ==> sortedFiles[k] == filesByTime[keys[k]]
  {
    sortedFiles := [];
    for j := 0 to |keys|
      invariant |sortedFiles| == j
      invariant forall k :: 0 <= k < j ==> sortedFiles[k] == filesByTime[keys[k]]
    {
      sortedFiles := sortedFiles + [filesByTime[keys[j]]];
    }
  }

  /** When no two scans share a time, reading the dictionary back in key
      order gives every scan once, in strictly ascending time. */
  lemma DateOrderPermutes(files: seq<ScanFile>, filesByTime: map<int, ScanFile>, keys: seq<int>,
                          sortedFiles: seq<ScanFile>)
    requires DistinctMtimes(files)
    requires forall t :: t in filesByTime ==> filesByTime[t] in files && filesByTime[t].mtime == t
    requires forall f :: f in files ==> f.mtime in filesByTime
    requires Increasing(keys)
    requires forall t :: t in filesByTime ==> t in keys
    requires |sortedFiles| == |keys|
    requires forall k :: 0 <= k < |keys| ==> keys[k] in filesByTime && sortedFiles[k] == filesByTime[keys[k]]
    ensures StrictlyByMtime(sortedFiles) && multiset(sortedFiles) == multiset(files)
  {
    forall f | f in files ensures f in sortedFiles {
      assert f.mtime in keys;
      var k :| 0 <= k < |keys| && keys[k] == f.mtime;
      var i :| 0 <= i < |files| && files[i] == f;
      var g := filesByTime[f.mtime];
      var i' :| 0 <= i' < |files| && files[i'] == g;
      assert sortedFiles[k] == g;
      assert files[i].mtime == files[i'].mtime;
    }
    forall f | f in sortedFiles ensures f in files {
      var k :| 0 <= k < |sortedFiles| && sortedFiles[k] == f;
    }
    assert forall i, j :: 0 <= i < j < |files| ==> files[i] != files[j];
    assert StrictlyByMtime(sortedFiles);
    SameMembersPermutation(sortedFiles, files);
  }

  /** `getSortedFiles` after discovery: `name` orders by name; `date` orders
      through a dictionary keyed by time and gives up when that dictionary
      has fewer entries than there are scans. Both give-up paths, and an
      unknown policy, call the undefined `printf` (magazine-ocr.py:42, 45),
      so they end in a `NameError`. */
  method GetSortedFiles(files: seq<ScanFile>, sortAlgorithm: string) returns (r: Result<seq<ScanFile>>)
    ensures sortAlgorithm == "name" ==>
      r.Ok? && SortedByName(r.value) && multiset(r.value) == multiset(files)
    ensures sortAlgorithm == "date" ==> (r.Ok? <==> DistinctMtimes(files))
    ensures sortAlgorithm == "date" && r.Ok? ==>
      StrictlyByMtime(r.value) && multiset(r.value) == multiset(files)
    ensures sortAlgorithm != "name" && r.Err? ==> r == Err(NameError("printf"))
    ensures sortAlgorithm != "name" && sortAlgorithm != "date" ==> r.Err?
  {
    if sortAlgorithm == "name" {
      return Ok(SortByName(files));
    } else if sortAlgorithm == "date" {
      var timeKeys, filesByTime := IndexByTime(files);
      var oldNumFiles := |files|;
      var keys := SortKeys(timeKeys);
      assert forall t :: t in keys <==> t in timeKeys by {
        assert forall t :: t in keys <==> t in multiset(keys);
        assert forall t :: t in timeKeys <==> t in multiset(timeKeys);
      }
      var sortedFiles := InKeyOrder(filesByTime, keys);
      if |sortedFiles| != oldNumFiles {
        return Err(NameError("printf"));
      }
      DateOrderPermutes(files, filesByTime, keys, sortedFiles);
      return Ok(sortedFiles);
    } else {
      return Err(NameError("printf"));
    }
  }
}

/** The page mapper `buildPageMap` (magazine-ocr.py:51-153): from N ordered
    scans of a de-bound publication and a scanning topology, the plan of
    2N output pages, each naming its source scan, the half of that scan and
    the transform string to apply before splitting. */
module PageMapper {
  import opened Common

  /** The two scanning topologies: `fbfb` alternates front and back scans,
      `ffbb` has all fronts first and then all backs. */
  datatype Topology = Fbfb | Ffbb

  function TopologyNamed(name: string): (t: Option<Topology>)
    ensures t == Some(Fbfb) <==> name == "fbfb"
    ensures t == Some(Ffbb) <==> name == "ffbb"
    ensures t == None <==> name != "fbfb" && name != "ffbb"
  {
    if name == "fbfb" then Some(Fbfb) else if name == "ffbb" then Some(Ffbb) else None
  }

  /** One output page. `pageFilename` is absent until the renderer has
      written the page. */
  datatype PageEntry = PageEntry(srcFile: string, srcHalf: string, transforms: string, pageFilename: Option<string>)

  const LEFT := "left"
  const RIGHT := "right"

  /** An absent transform string counts as empty (magazine-ocr.py:56-63). */
  function OrEmpty(s: Option<string>): string {
    if s.Some? then s.value else ""
  }

  // ------------------------------------------------------ index arithmetic

  /** Whether scan `s` of `n` is a front scan. */
  predicate IsFront(topo: Topology, n: nat, s: nat) {
    match topo
    case Fbfb => s % 2 == 0
    case Ffbb => s < n / 2
  }

  /** The lower-numbered entry scan `s` fills: `p` in `fbfb`, `2f` in `ffbb`. */
  function LowEntry(topo: Topology, s: nat): nat {
    match topo
    case Fbfb => s
    case Ffbb => 2 * s
  }

  /** The mirrored entry scan `s` fills: `totalPages - p - 1`. */
  function HighEntry(topo: Topology, n: nat, s: nat): int {
    2 * n - 1 - LowEntry(topo, s)
  }

  /** The half of a scan that lands on its low entry: a front scan gives its
      right half, a back scan its left half. The high entry gets the other. */
  function LowHalf(front: bool): string {
    if front then RIGHT else LEFT
  }

  function HighHalf(front: bool): string {
    if front then LEFT else RIGHT
  }

  /** Side-specific commands first, then the global ones. */
  function TransformsFor(front: bool, frontT: string, backT: string, allT: string): string {
    (if front then frontT else backT) + allT
  }

  /** The scan that supplies output entry `k`: the inverse of the two entry
      functions above. */
  function Owner(topo: Topology, n: nat, k: nat): (s: nat)
    requires k < 2 * n
    ensures s < n
  {
    match topo
    case Fbfb => if k < n then k else 2 * n - 1 - k
    case Ffbb => if k % 2 == 0 then k / 2 else (2 * n - 1 - k) / 2
  }

  /** Every entry `0 <= k < 2N` is written by exactly one scan, and each scan
      writes two different entries. */
  lemma Partition(topo: Topology, n: nat, s: nat, k: nat)
    requires s < n && k < 2 * n
    ensures 0 <= HighEntry(topo, n, s) < 2 * n && LowEntry(topo, s) < 2 * n
    ensures LowEntry(topo, s) != HighEntry(topo, n, s)
    ensures Owner(topo, n, k) == s <==> k == LowEntry(topo, s) || k == HighEntry(topo, n, s)
  {
  }

  // ------------------------------------------------------------ the plan

  /** The page plan, entry by entry: entry `k` comes from scan `Owner(k)`,
      from the half that scan puts on `k`. */
  function Plan(topo: Topology, files: seq<string>, frontT: string, backT: string, allT: string)
    : (plan: seq<PageEntry>)
    ensures |plan| == 2 * |files|
  {
    var n := |files|;
    seq(2 * n, k requires 0 <= k < 2 * n =>
      var s := Owner(topo, n, k);
      var front := IsFront(topo, n, s);
      PageEntry(files[s],
                if k == LowEntry(topo, s) then LowHalf(front) else HighHalf(front),
                TransformsFor(front, frontT, backT, allT),
                None))
  }

  /** What scan `s` contributes to the plan: its two halves, on its two
      entries, with the same file and the same transform string. */
  lemma ScanEntries(topo: Topology, files: seq<string>, frontT: string, backT: string, allT: string, s: nat)
    requires s < |files|
    ensures var plan := Plan(topo, files, frontT, backT, allT);
      var n := |files|;
      var front := IsFront(topo, n, s);
      var t := TransformsFor(front, frontT, backT, allT);
      0 <= HighEntry(topo, n, s) < 2 * n &&
      plan[LowEntry(topo, s)] == PageEntry(files[s], LowHalf(front), t, None) &&
      plan[HighEntry(topo, n, s)] == PageEntry(files[s], HighHalf(front), t, None)
  {
    var n := |files|;
    Partition(topo, n, s, LowEntry(topo, s));
    Partition(topo, n, s, HighEntry(topo, n, s));
  }

  /** `fbfb` (magazine-ocr.py:90-106): an even scan `p` puts its right half
      on entry `p` and its left half on entry `2N-1-p`; an odd scan puts its
      left half on `p` and its right half on `2N-1-p`. */
  lemma FbfbPlacement(files: seq<string>, frontT: string, backT: string, allT: string, p: nat)
    requires p < |files|
    ensures var plan := Plan(Fbfb, files, frontT, backT, allT);
      var q := 2 * |files| - 1 - p;
      0 <= q < |plan| &&
      (p % 2 == 0 ==>
        plan[p] == PageEntry(files[p], "right", frontT + allT, None) &&
        plan[q] == PageEntry(files[p], "left", frontT + allT, None)) &&
      (p % 2 == 1 ==>
        plan[p] == PageEntry(files[p], "left", backT + allT, None) &&
        plan[q] == PageEntry(files[p], "right", backT + allT, None))
  {
    ScanEntries(Fbfb, files, frontT, backT, allT, p);
  }

  /** `ffbb` (magazine-ocr.py:128-145): a front scan `f < N/2` puts its right
      half on entry `2f` and its left half on `2N-1-2f`; a back scan
      `f >= N/2` puts its left half on `2f` and its right half on `2N-1-2f`. */
  lemma FfbbPlacement(files: seq<string>, frontT: string, backT: string, allT: string, f: nat)
    requires f < |files|
    ensures var plan := Plan(Ffbb, files, frontT, backT, allT);
      var q := 2 * |files| - 1 - 2 * f;
      0 <= q < |plan| && 2 * f < |plan| &&
      (f < |files| / 2 ==>
        plan[2 * f] == PageEntry(files[f], "right", frontT + allT, None) &&
        plan[q] == PageEntry(files[f], "left", frontT + allT, None)) &&
      (f >= |files| / 2 ==>
        plan[2 * f] == PageEntry(files[f], "left", backT + allT, None) &&
        plan[q] == PageEntry(files[f], "right", backT + allT, None))
  {
    ScanEntries(Ffbb, files, frontT, backT, allT, f);
  }

  /** Every scan appears on exactly two entries of the plan, and every entry
      names one of the scans. */
  lemma EachScanTwice(topo: Topology, files: seq<string>, frontT: string, backT: string, allT: string, s: nat)
    requires s < |files|
    ensures var plan := Plan(topo, files, frontT, backT, allT);
      var n := |files|;
      |set k | 0 <= k < 2 * n && Owner(topo, n, k) == s| == 2
  {
    var n := |files|;
    var lo, hi := LowEntry(topo, s), HighEntry(topo, n, s);
    Partition(topo, n, s, lo);
    var owned := set k | 0 <= k < 2 * n && Owner(topo, n, k) == s;
    forall k | k in owned ensures k == lo || k == hi {
      Partition(topo, n, s, k);
    }
    forall k | k == lo || k == hi ensures k in owned {
      Partition(topo, n, s, k);
    }
    assert owned == {lo, hi as nat};
  }

  // ------------------------------------------------------------ the method

  function Unwrap(slots: seq<Option<PageEntry>>): (r: seq<PageEntry>)
    requires forall k :: 0 <= k < |slots| ==> slots[k].Some?
    ensures |r| == |slots| && forall k :: 0 <= k < |r| ==> slots[k] == Some(r[k])
  {
    seq(|slots|, k requires 0 <= k < |slots| => slots[k].value)
  }

  /** The `fbfb` loop (magazine-ocr.py:79-106): scan `p` fills entry `p`
      and its mirror `totalPages - p - 1`. */
  method FillFbfb(files: seq<string>, frontT: string, backT: string, allT: string)
    returns (pages: seq<PageEntry>)
    ensures pages == Plan(Fbfb, files, frontT, backT, allT)
  {
    var totalFiles := |files|;
    var totalPages := totalFiles * 2;
    ghost var plan := Plan(Fbfb, files, frontT, backT, allT);
    var pageMap := new Option<PageEntry>[totalPages](_ => None);
    for p := 0 to totalPages / 2
      invariant forall k :: 0 <= k < totalPages ==>
        pageMap[k] == if Owner(Fbfb, totalFiles, k) < p then Some(plan[k]) else None
    {
      var q := totalPages - p - 1;
      ScanEntries(Fbfb, files, frontT, backT, allT, p);
      forall k | 0 <= k < totalPages ensures Owner(Fbfb, totalFiles, k) == p <==> k == p || k == q {
        Partition(Fbfb, totalFiles, p, k);
      }
      if p % 2 == 0 {
        // a front scan
        pageMap[p] := Some(PageEntry(files[p], RIGHT, frontT + allT, None));
        pageMap[q] := Some(PageEntry(files[p], LEFT, frontT + allT, None));
      } else {
        // a back scan
        pageMap[p] := Some(PageEntry(files[p], LEFT, backT + allT, None));
        pageMap[q] := Some(PageEntry(files[p], RIGHT, backT + allT, None));
      }
    }
    assert Unwrap(pageMap[..]) == plan;
    return Unwrap(pageMap[..]);
  }

  /** The `ffbb` loop (magazine-ocr.py:123-145): scan `f` fills entry `2f`
      and its mirror `totalPages - 2f - 1`. */
  method FillFfbb(files: seq<string>, frontT: string, backT: string, allT: string)
    returns (pages: seq<PageEntry>)
    ensures pages == Plan(Ffbb, files, frontT, backT, allT)
  {
    var totalFiles := |files|;
    var totalPages := totalFiles * 2;
    ghost var plan := Plan(Ffbb, files, frontT, backT, allT);
    var pageMap := new Option<PageEntry>[totalPages](_ => None);
    for f := 0 to totalFiles
      invariant forall k :: 0 <= k < totalPages ==>
        pageMap[k] == if Owner(Ffbb, totalFiles, k) < f then Some(plan[k]) else None
    {
      var p := f * 2;
      var q := totalPages - p - 1;
      ScanEntries(Ffbb, files, frontT, backT, allT, f);
      forall k | 0 <= k < totalPages ensures Owner(Ffbb, totalFiles, k) == f <==> k == p || k == q {
        Partition(Ffbb, totalFiles, f, k);
      }
      if f < totalFiles / 2 {
        // a front scan
        pageMap[p] := Some(PageEntry(files[f], RIGHT, frontT + allT, None));
        pageMap[q] := Some(PageEntry(files[f], LEFT, frontT + allT, None));
      } else {
        // a back scan
        pageMap[p] := Some(PageEntry(files[f], LEFT, backT + allT, None));
        pageMap[q] := Some(PageEntry(files[f], RIGHT, backT + allT, None));
      }
    }
    assert Unwrap(pageMap[..]) == plan;
    return Unwrap(pageMap[..]);
  }

  /** `buildPageMap`: an unknown topology exits with status 1, an odd number
      of scans with status 2; otherwise the result is the page plan, each
      absent transform string counting as empty. */
  method BuildPageMap(files: seq<string>, splitAlgorithm: string,
                      frontTransforms: Option<string>, backTransforms: Option<string>,
                      allTransforms: Option<string>)
    returns (r: Result<seq<PageEntry>>)
    ensures TopologyNamed(splitAlgorithm).None? ==> r == Err(Exit(1))
    ensures TopologyNamed(splitAlgorithm).Some? && |files| % 2 != 0 ==> r == Err(Exit(2))
    ensures TopologyNamed(splitAlgorithm).Some? && |files| % 2 == 0 ==>
      r == Ok(Plan(TopologyNamed(splitAlgorithm).value, files,
                   OrEmpty(frontTransforms), OrEmpty(backTransforms), OrEmpty(allTransforms)))
  {
    var frontT, backT, allT := OrEmpty(frontTransforms), OrEmpty(backTransforms), OrEmpty(allTransforms);
    var totalFiles := |files|;
    if splitAlgorithm == "fbfb" {
      if totalFiles % 2 != 0 {
        return Err(Exit(2));
      }
      var pageMap := FillFbfb(files, frontT, backT, allT);
      return Ok(pageMap);
    } else if splitAlgorithm == "ffbb" {
      if totalFiles % 2 != 0 {
        return Err(Exit(2));
      }
      var pageMap := FillFfbb(files, frontT, backT, allT);
      return Ok(pageMap);
    } else {
      return Err(Exit(1));
    }
  }

  // ------------------------------------------------------------ examples

  /** Four scans, alternating: scan 0 gives pages 1 (right) and 8 (left),
      scan 1 pages 2 (left) and 7 (right), scan 2 pages 3 (right) and 6
      (left), scan 3 pages 4 (left) and 5 (right). */
  lemma FbfbExample()
    ensures Plan(Fbfb, ["s0", "s1", "s2", "s3"], "F", "B", "A") == [
      PageEntry("s0", "right", "FA", None), PageEntry("s1", "left", "BA", None),
      PageEntry("s2", "right", "FA", None), PageEntry("s3", "left", "BA", None),
      PageEntry("s3", "right", "BA", None), PageEntry("s2", "left", "FA", None),
      PageEntry("s1", "right", "BA", None), PageEntry("s0", "left", "FA", None)]
  {
    var plan := Plan(Fbfb, ["s0", "s1", "s2", "s3"], "F", "B", "A");
    assert plan[0] == PageEntry("s0", "right", "FA", None);
    assert plan[1] == PageEntry("s1", "left", "BA", None);
    assert plan[2] == PageEntry("s2", "right", "FA", None);
    assert plan[3] == PageEntry("s3", "left", "BA", None);
    assert plan[4] == PageEntry("s3", "right", "BA", None);
    assert plan[5] == PageEntry("s2", "left", "FA", None);
    assert plan[6] == PageEntry("s1", "right", "BA", None);
    assert plan[7] == PageEntry("s0", "left", "FA", None);
  }

  /** Four scans, fronts first: scan 0 gives pages 1 (right) and 8 (left),
      scan 1 pages 3 (right) and 6 (left), scan 2 pages 5 (left) and 4
      (right), scan 3 pages 7 (left) and 2 (right). */
  lemma FfbbExample()
    ensures Plan(Ffbb, ["s0", "s1", "s2", "s3"], "F", "B", "A") == [
      PageEntry("s0", "right", "FA", None), PageEntry("s3", "right", "BA", None),
      PageEntry("s1", "right", "FA", None), PageEntry("s2", "right", "BA", None),
      PageEntry("s2", "left", "BA", None), PageEntry("s1", "left", "FA", None),
      PageEntry("s3", "left", "BA", None), PageEntry("s0", "left", "FA", None)]
  {
    var plan := Plan(Ffbb, ["s0", "s1", "s2", "s3"], "F", "B", "A");
    assert plan[0] == PageEntry("s0", "right", "FA", None);
    assert plan[1] == PageEntry("s3", "right", "BA", None);
    assert plan[2] == PageEntry("s1", "right", "FA", None);
    assert plan[3] == PageEntry("s2", "right", "BA", None);
    assert plan[4] == PageEntry("s2", "left", "BA", None);
    assert plan[5] == PageEntry("s1", "left", "FA", None);
    assert plan[6] == PageEntry("s3", "left", "BA", None);
    assert plan[7] == PageEntry("s0", "left", "FA", None);
  }
}

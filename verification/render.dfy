/** Page rendering: `createPageProcess` (magazine-ocr.py:229-260) renders one
    planned page, and `createPagesMultiprocess` (magazine-ocr.py:262-273)
    renders them all and records each page's file name in its entry.

    Opening a scan is a parameter `open` giving the scan's size; saving a
    page is represented by the crop box cut from the transformed scan. */
module Render {
  import opened Common
  import opened Decimal
  import opened Transform
  import opened PageMapper

  /** A crop box `(left, upper, right, lower)`. The split column is
      `width/2`, a true division in Python 3, so coordinates are reals. */
  datatype Box = Box(left: real, upper: real, right: real, lower: real)

  /** What a worker hands back: the page number and the path of the written
      page image, and (standing for the image itself) the box it was cut with. */
  datatype PageResult = PageResult(pageNum: nat, pageFilename: string, page: Box)

  // ------------------------------------------------------------ the split

  /** The part of the transformed scan that becomes the page
      (magazine-ocr.py:238-248). Any half other than `left` or `right`
      reaches the `'all'` test, which reads the undefined name `page`. */
  function HalfBox(srcHalf: string, img: Image): (r: Result<Box>)
    ensures r.Ok? <==> srcHalf == LEFT || srcHalf == RIGHT
    ensures r.Err? ==> r.abort == NameError("page")
  {
    var width, height := img.width as real, img.height as real;
    if srcHalf == LEFT then Ok(Box(0.0, 0.0, width / 2.0, height))
    else if srcHalf == RIGHT then Ok(Box(width / 2.0, 0.0, width, height))
    else Err(NameError("page"))
  }

  /** The two halves share one split column, together cover the width, and
      each keeps the full height; for an even width the split is the integer
      column `width / 2`. */
  lemma HalvesTile(img: Image)
    ensures var l, r := HalfBox(LEFT, img), HalfBox(RIGHT, img);
      l.Ok? && r.Ok? &&
      l.value.left == 0.0 && l.value.right == r.value.left && r.value.right == img.width as real &&
      l.value.upper == 0.0 && r.value.upper == 0.0 &&
      l.value.lower == img.height as real && r.value.lower == img.height as real &&
      l.value.right - l.value.left == r.value.right - r.value.left &&
      (img.width % 2 == 0 ==> l.value.right == (img.width / 2) as real)
  {
  }

  // ------------------------------------------------------------ file names

  /** `"page-%04d.png" % (pageNum + 1)`: page names are 1-based. */
  function PageFileName(pageNum: nat): string {
    "page-" + Pad4(pageNum + 1) + ".png"
  }

  /** The 1-based page number a page file name carries, if it has the form
      `page-<digits>.png`. */
  function PageNumberOf(name: string): Option<nat> {
    if |name| >= 9 && name[..5] == "page-" && name[|name| - 4..] == ".png" && AllDigits(name[5..|name| - 4])
    then Some(Value(name[5..|name| - 4]))
    else None
  }

  /** Every page file name names its own page. */
  lemma PageNumberOfName(pageNum: nat)
    ensures PageNumberOf(PageFileName(pageNum)) == Some(pageNum + 1)
  {
    var digits := Pad4(pageNum + 1);
    var name := PageFileName(pageNum);
    assert name[..5] == "page-";
    assert name[|name| - 4..] == ".png";
    assert name[5..|name| - 4] == digits;
  }

  /** Different pages are written to different files. */
  lemma PageFileNamesDistinct(j: nat, k: nat)
    requires j != k
    ensures PageFileName(j) != PageFileName(k)
  {
    PageNumberOfName(j);
    PageNumberOfName(k);
  }

  /** What `os.path.join(dir, base)` puts before a relative `base`. */
  function JoinPrefix(dir: string): string {
    if dir == [] || dir[|dir| - 1] == '/' then dir else dir + "/"
  }

  predicate Relative(name: string) {
    name == [] || name[0] != '/'
  }

  /** `os.path.join(dir, base)` on POSIX paths: an absolute `base` replaces
      the directory. */
  function JoinPath(dir: string, base: string): string {
    if Relative(base) then JoinPrefix(dir) + base else base
  }

  /** An absolute name ignores the directory, so joining is not injective
      for such names. */
  lemma JoinPathAbsolute(dir1: string, dir2: string, base: string)
    requires !Relative(base)
    ensures JoinPath(dir1, base) == JoinPath(dir2, base)
  {
  }

  /** Joining onto one directory keeps different relative names different. */
  lemma JoinPathInjective(dir: string, a: string, b: string)
    requires a != b && Relative(a) && Relative(b)
    ensures JoinPath(dir, a) != JoinPath(dir, b)
  {
    var p := JoinPrefix(dir);
    assert JoinPath(dir, a)[|p|..] == a;
    assert JoinPath(dir, b)[|p|..] == b;
  }

  /** The path page `pageNum` is written to. */
  function PagePath(tmpWorkingDir: string, pageNum: nat): string {
    JoinPath(tmpWorkingDir, PageFileName(pageNum))
  }

  lemma PagePathsDistinct(tmpWorkingDir: string, j: nat, k: nat)
    requires j != k
    ensures PagePath(tmpWorkingDir, j) != PagePath(tmpWorkingDir, k)
  {
    PageFileNamesDistinct(j, k);
    assert PageFileName(j)[0] == 'p' && PageFileName(k)[0] == 'p';
    JoinPathInjective(tmpWorkingDir, PageFileName(j), PageFileName(k));
  }

  // ------------------------------------------------------------ one page

  /** The image written for a page: its half of the scan after the scan's
      transforms. */
  function RenderedHalf(rotate: Rotation, open: string -> Image, e: PageEntry): (r: Result<Box>)
    ensures r.Ok? <==> e.srcHalf == LEFT || e.srcHalf == RIGHT
  {
    HalfBox(e.srcHalf, ApplyAll(rotate, Parse(e.transforms), open(e.srcFile)))
  }

  /** `createPageProcess`: open the scan, run its transforms, cut the half
      and save it under the page's name. */
  method CreatePageProcess(rotate: Rotation, open: string -> Image, tmpWorkingDir: string,
                           pageNum: nat, pageData: PageEntry)
    returns (r: Result<PageResult>)
    ensures r.Ok? <==> pageData.srcHalf == LEFT || pageData.srcHalf == RIGHT
    ensures r.Err? ==> r.abort == NameError("page")
    ensures r.Ok? ==>
      r.value.pageNum == pageNum &&
      r.value.pageFilename == PagePath(tmpWorkingDir, pageNum) &&
      r.value.page == RenderedHalf(rotate, open, pageData).value
  {
    var srcImg := open(pageData.srcFile);
    var img := ImageTransform(rotate, srcImg, Some(pageData.transforms));
    var half := HalfBox(pageData.srcHalf, img);
    if half.Err? {
      return Err(half.abort);
    }
    var pageFilenameBase := PageFileName(pageNum);
    var pageFilename := JoinPath(tmpWorkingDir, pageFilenameBase);
    return Ok(PageResult(pageNum, pageFilename, half.value));
  }

  // ------------------------------------------------------------ the gather

  /** The file name the results give page `k`: the last result tagged `k`. */
  function NameFor(results: seq<PageResult>, k: nat): Option<string>
    decreases |results|
  {
    if results == [] then None
    else if results[|results| - 1].pageNum == k then Some(results[|results| - 1].pageFilename)
    else NameFor(results[..|results| - 1], k)
  }

  /** The entries after the gather loop has recorded `results`, in order. */
  function Gathered(entries: seq<PageEntry>, results: seq<PageResult>): (r: seq<PageEntry>)
    requires forall i :: 0 <= i < |results| ==> results[i].pageNum < |entries|
    ensures |r| == |entries|
    decreases |results|
  {
    if results == [] then entries
    else
      var before := Gathered(entries, results[..|results| - 1]);
      var last := results[|results| - 1];
      before[last.pageNum := before[last.pageNum].(pageFilename := Some(last.pageFilename))]
  }

  /** After the gather, entry `k` carries the name of the last result tagged
      `k`, and is otherwise unchanged. */
  lemma {:induction false} GatheredAt(entries: seq<PageEntry>, results: seq<PageResult>, k: nat)
    requires forall i :: 0 <= i < |results| ==> results[i].pageNum < |entries|
    requires k < |entries|
    ensures Gathered(entries, results)[k] ==
      if NameFor(results, k).Some? then entries[k].(pageFilename := NameFor(results, k)) else entries[k]
    decreases |results|
  {
    if results != [] {
      GatheredAt(entries, results[..|results| - 1], k);
    }
  }

  predicate DistinctTags(results: seq<PageResult>) {
    forall i, j :: 0 <= i < j < |results| ==> results[i].pageNum != results[j].pageNum
  }

  /** With one result per page, the name a page gets is the name in the
      result tagged with it, wherever that result stands. */
  lemma {:induction false} NameForTagged(results: seq<PageResult>, i: nat)
    requires DistinctTags(results) && i < |results|
    ensures NameFor(results, results[i].pageNum) == Some(results[i].pageFilename)
    decreases |results|
  {
    if i < |results| - 1 {
      var front := results[..|results| - 1];
      assert front[i] == results[i];
      NameForTagged(front, i);
    }
  }

  lemma {:induction false} NameForUntagged(results: seq<PageResult>, k: nat)
    requires forall i :: 0 <= i < |results| ==> results[i].pageNum != k
    ensures NameFor(results, k) == None
    decreases |results|
  {
    if results != [] {
      NameForUntagged(results[..|results| - 1], k);
    }
  }

  /** The gather does not depend on the order the results arrive in. */
  lemma GatherOrderIndependent(entries: seq<PageEntry>, results1: seq<PageResult>, results2: seq<PageResult>)
    requires forall i :: 0 <= i < |results1| ==> results1[i].pageNum < |entries|
    requires forall i :: 0 <= i < |results2| ==> results2[i].pageNum < |entries|
    requires DistinctTags(results1) && DistinctTags(results2)
    requires forall x :: x in results1 <==> x in results2
    ensures Gathered(entries, results1) == Gathered(entries, results2)
  {
    forall k | 0 <= k < |entries|
      ensures Gathered(entries, results1)[k] == Gathered(entries, results2)[k]
    {
      GatheredAt(entries, results1, k);
      GatheredAt(entries, results2, k);
      if i :| 0 <= i < |results1| && results1[i].pageNum == k {
        assert results1[i] in results2;
        var j :| 0 <= j < |results2| && results2[j] == results1[i];
        NameForTagged(results1, i);
        NameForTagged(results2, j);
      } else {
        NameForUntagged(results1, k);
        forall j | 0 <= j < |results2| ensures results2[j].pageNum != k {
          assert results2[j] in results1;
        }
        NameForUntagged(results2, k);
      }
    }
  }

  /** The gather loop (magazine-ocr.py:271-272): each result's file name is
      written into the entry its page number selects. */
  method Gather(pageMap: array<PageEntry>, pageResultTupleList: seq<PageResult>)
    requires forall i :: 0 <= i < |pageResultTupleList| ==> pageResultTupleList[i].pageNum < pageMap.Length
    modifies pageMap
    ensures pageMap[..] == Gathered(old(pageMap[..]), pageResultTupleList)
  {
    for i := 0 to |pageResultTupleList|
      invariant pageMap[..] == Gathered(old(pageMap[..]), pageResultTupleList[..i])
    {
      var result := pageResultTupleList[i];
      assert pageResultTupleList[..i + 1][..i] == pageResultTupleList[..i];
      pageMap[result.pageNum] := pageMap[result.pageNum].(pageFilename := Some(result.pageFilename));
    }
    assert pageResultTupleList[..|pageResultTupleList|] == pageResultTupleList;
  }

  // ------------------------------------------------------------ all pages

  predicate Renderable(e: PageEntry) {
    e.srcHalf == LEFT || e.srcHalf == RIGHT
  }

  /** `res` is what rendering entry `e` as page `i` returns. */
  predicate RenderedAs(rotate: Rotation, open: string -> Image, tmpWorkingDir: string,
                       i: nat, e: PageEntry, res: PageResult) {
    && Renderable(e)
    && res.pageNum == i
    && res.pageFilename == PagePath(tmpWorkingDir, i)
    && res.page == RenderedHalf(rotate, open, e).value
  }

  /** The worker pool of `createPagesMultiprocess` (magazine-ocr.py:268-269),
      replaced by a loop in page order (the order `pool.map` returns results
      in): every entry is rendered, and the first page with an unknown half
      aborts. */
  method RenderPages(rotate: Rotation, open: string -> Image,
                     pageMap: seq<PageEntry>, tmpWorkingDir: string)
    returns (r: Result<seq<PageResult>>)
    ensures r.Ok? <==> forall k :: 0 <= k < |pageMap| ==> Renderable(pageMap[k])
    ensures r.Err? ==> r.abort == NameError("page")
    ensures r.Ok? ==> |r.value| == |pageMap| && forall i :: 0 <= i < |pageMap| ==>
      r.value[i].pageNum == i && r.value[i].pageFilename == PagePath(tmpWorkingDir, i) &&
      r.value[i].page == RenderedHalf(rotate, open, pageMap[i]).value
  {
    var pageResultTupleList: seq<PageResult> := [];
    for pageNum := 0 to |pageMap|
      invariant |pageResultTupleList| == pageNum
      invariant forall i :: 0 <= i < pageNum ==>
        RenderedAs(rotate, open, tmpWorkingDir, i, pageMap[i], pageResultTupleList[i])
    {
      var res := CreatePageProcess(rotate, open, tmpWorkingDir, pageNum, pageMap[pageNum]);
      if res.Err? {
        return Err(res.abort);
      }
      pageResultTupleList := pageResultTupleList + [res.value];
    }
    return Ok(pageResultTupleList);
  }

  /** Gathering one result per page, in page order, gives every entry its
      own page's path and changes nothing else. */
  lemma GatheredPages(entries: seq<PageEntry>, results: seq<PageResult>, tmpWorkingDir: string)
    requires |results| == |entries|
    requires forall i :: 0 <= i < |results| ==>
      results[i].pageNum == i && results[i].pageFilename == PagePath(tmpWorkingDir, i)
    ensures forall k :: 0 <= k < |entries| ==>
      Gathered(entries, results)[k] == entries[k].(pageFilename := Some(PagePath(tmpWorkingDir, k)))
  {
    forall k | 0 <= k < |entries|
      ensures Gathered(entries, results)[k] == entries[k].(pageFilename := Some(PagePath(tmpWorkingDir, k)))
    {
      GatheredAt(entries, results, k);
      assert results[k].pageNum == k;
      NameForTagged(results, k);
    }
  }

  /** `createPagesMultiprocess`: render every page, then gather the names
      into the plan. A page with an unknown half aborts the run before
      anything is recorded. `written[k]` is the image saved at page `k`'s
      path. */
  method CreatePagesMultiprocess(rotate: Rotation, open: string -> Image,
                                 pageMap: array<PageEntry>, tmpWorkingDir: string)
    returns (r: Result<()>, ghost written: seq<Box>)
    modifies pageMap
    ensures r.Ok? <==> forall k :: 0 <= k < pageMap.Length ==> Renderable(old(pageMap[k]))
    ensures r.Err? ==> r.abort == NameError("page") && pageMap[..] == old(pageMap[..])
    ensures r.Ok? ==> forall k :: 0 <= k < pageMap.Length ==>
      pageMap[k] == old(pageMap[k]).(pageFilename := Some(PagePath(tmpWorkingDir, k)))
    ensures r.Ok? ==> |written| == pageMap.Length && forall k :: 0 <= k < pageMap.Length ==>
      written[k] == RenderedHalf(rotate, open, old(pageMap[k])).value
  {
    written := [];
    var rendered := RenderPages(rotate, open, pageMap[..], tmpWorkingDir);
    if rendered.Err? {
      return Err(rendered.abort), written;
    }
    var pageResultTupleList := rendered.value;
    written := seq(|pageResultTupleList|, i requires 0 <= i < |pageResultTupleList| => pageResultTupleList[i].page);
    ghost var before := pageMap[..];
    Gather(pageMap, pageResultTupleList);
    GatheredPages(before, pageResultTupleList, tmpWorkingDir);
    return Ok(()), written;
  }

  /** After rendering, the pages' files are pairwise different. */
  lemma RenderedNamesDistinct(entries: seq<PageEntry>, tmpWorkingDir: string, j: nat, k: nat)
    requires j < |entries| && k < |entries| && j != k
    requires forall i :: 0 <= i < |entries| ==> entries[i].pageFilename == Some(PagePath(tmpWorkingDir, i))
    ensures entries[j].pageFilename != entries[k].pageFilename
  {
    PagePathsDistinct(tmpWorkingDir, j, k);
  }
}

# magazine-ocr: page mapping, transforms and page rendering in Dafny

`magazine-ocr.py` rebuilds a page-ordered document from flatbed scans of a
de-bound publication, two pages per scan. This project models its core and
proves properties about it:

- **Scan ordering** (`ScanOrder`, `getSortedFiles`). The discovered scans are
  ordered by name or by modification time. Two scans with the same time, or
  an unknown policy, abort the run.
- **Page mapping** (`PageMapper`, `buildPageMap`). N scans and a topology
  give a plan of 2N pages. `fbfb` alternates front and back scans. `ffbb`
  has all fronts first, then all backs. Each page entry names its scan, the
  half of that scan it takes, and the transform string for the scan.
- **Transform mini-language** (`Transform`, `imageTransform`). A string such
  as `r90c100x50+10+20s200x100` is read left to right as rotate, crop,
  absolute-resize and percent-resize commands. Each command applies to the
  previous one's result. Images are modelled by their size.
- **Page rendering** (`Render`, `createPageProcess` and
  `createPagesMultiprocess`). A page is rendered by opening its scan,
  transforming it and cutting the half. It is saved as `page-%04d.png`,
  numbered from 1, in the working directory. The file names are then
  gathered back into the plan.
- **Supporting modules.** `Common` holds `Option`, `Result` and the two ways
  a run aborts: `Exit(status)` and `NameError(name)`. `Decimal` holds
  decimal digit strings, which `int()` reads and `%d` / `%04d` write.

Outside effects become parameters:

- reading a scan's size is a function `open`;
- the canvas size of `rotate(..., expand=1)` is a function `rotate`;
- a scan's modification time is an integer field of the scan.

Where the code and its own comments or intent disagree, the model follows
the code:

- **`ffbb` page layout.** The grouped layout follows `magazine-ocr.py:128-145`.
  Back scan `f` takes entries `2f` (left half) and `2N-1-2f` (right half).
  For four scans, scan 2 gives pages 5 (left) and 4 (right), and scan 3
  gives pages 7 (left) and 2 (right). The comment at
  `magazine-ocr.py:111-117` lists the halves of the back scans the other
  way round; the model follows the assignments at lines 128-145.
- **Split column.** The code splits at `width/2`, which is true division in
  Python 3, not `floor(width/2)`. So the crop boxes have real coordinates.
- **Whole-page half.** The branch at `magazine-ocr.py:244-245` is meant to
  keep the whole scan for a half named `all`. It tests that half through
  the undefined name `page`, so any half
  other than `left` or `right` aborts with a `NameError`. This includes
  `all` and unknown halves: `exit(3)` is never reached. No plan the mapper
  builds contains such a half.
- **Ordering errors.** These report through the undefined name `printf`, so
  they abort with a `NameError` before `sys.exit(1)` is reached.

## Model

| member | source | states |
|---|---|---|
| `ScanOrder.NameLe` | magazine-ocr.py:27 | Python's string order, which `sorted` uses: character by character, and a name sorts before its own extensions; `NameLeTotal` and `NameLeTransitive` show that any two names compare and that the order is transitive |
| `ScanOrder.NameLeTotal` | magazine-ocr.py:27 | any two names are comparable in Python's string order |
| `ScanOrder.NameLeTransitive` | magazine-ocr.py:27 | Python's string order is transitive |
| `ScanOrder.Insert` | magazine-ocr.py:27 | inserting a scan into a name-sorted list keeps it sorted and adds exactly that scan |
| `ScanOrder.SortByName` | magazine-ocr.py:26-27 | `sorted(files)`: the result is in ascending name order and is a permutation of the scans |
| `ScanOrder.DistinctMtimesExtend` | magazine-ocr.py:31-33 | a scan with a new time keeps the scans seen so far free of shared times exactly when they were before |
| `ScanOrder.DistinctMtimesClash` | magazine-ocr.py:31-33 | a scan whose time was already seen means two scans share a time |
| `ScanOrder.IndexByTime` | magazine-ocr.py:30-33 | the time-keyed dictionary has one key per distinct time; it stores the last scan with that time; every scan's time is a key; it has as many keys as scans exactly when no two scans share a time |
| `ScanOrder.InsertKey` | magazine-ocr.py:38 | inserting a key adds exactly that key |
| `ScanOrder.InsertKeyIncreasing` | magazine-ocr.py:38 | inserting a new key into an ascending list keeps it strictly ascending |
| `ScanOrder.SortKeys` | magazine-ocr.py:38 | `sorted(list(set(keys)))` for distinct keys: the same keys, strictly ascending |
| `ScanOrder.SameMembersPermutation` | magazine-ocr.py:37-39 | two duplicate-free lists with the same members are permutations of each other |
| `ScanOrder.InKeyOrder` | magazine-ocr.py:37-39 | the rebuilt list holds, position by position, the dictionary's scan for each key |
| `ScanOrder.DateOrderPermutes` | magazine-ocr.py:35-43 | with no shared times, the rebuilt list holds every scan once, in strictly ascending time |
| `ScanOrder.GetSortedFiles` | magazine-ocr.py:26-46 | `name`: sorted by name and a permutation. `date`: succeeds exactly when no two scans share a time, and the result is a permutation in strictly ascending time. A time clash or unknown policy aborts with `NameError("printf")` |
| `PageMapper.Owner` | magazine-ocr.py:90-145 | every page index below 2N belongs to a scan index below N |
| `PageMapper.Partition` | magazine-ocr.py:90-145 | each scan writes two different in-range entries, and a page belongs to a scan exactly when it is one of those two |
| `PageMapper.Plan` | magazine-ocr.py:79-145 | the plan has exactly 2N entries |
| `PageMapper.ScanEntries` | magazine-ocr.py:90-145 | each scan's two entries carry its file and transform string; the low entry gets the right half of a front scan and the left half of a back scan; the mirrored entry gets the other half |
| `PageMapper.FbfbPlacement` | magazine-ocr.py:90-106 | even scan `p`: right half on entry `p`, left half on `2N-1-p`, with front plus global transforms. Odd scan: left on `p`, right on `2N-1-p`, with back plus global transforms |
| `PageMapper.FfbbPlacement` | magazine-ocr.py:128-145 | front scan `f < N/2`: right half on `2f`, left on `2N-1-2f`. Back scan: left on `2f`, right on `2N-1-2f`. Each uses its side's transforms plus the global ones |
| `PageMapper.EachScanTwice` | magazine-ocr.py:79-145 | every scan supplies exactly two pages of the plan |
| `PageMapper.FillFbfb` | magazine-ocr.py:79-106 | the `fbfb` loop over the pre-allocated list produces exactly the plan |
| `PageMapper.FillFfbb` | magazine-ocr.py:123-145 | the `ffbb` loop over the pre-allocated list produces exactly the plan |
| `PageMapper.OrEmpty` | magazine-ocr.py:56-63 | no contract; a missing transform string stands for the empty one, which `BuildPageMap`'s contract states of the whole plan |
| `PageMapper.BuildPageMap` | magazine-ocr.py:51-153 | unknown topology exits 1; an odd scan count exits 2; otherwise the result is the plan, with absent transform strings treated as empty |
| `PageMapper.FbfbExample` | magazine-ocr.py:90-106 | four alternating scans give pages 1..8 from scans 0,1,2,3,3,2,1,0 with halves R,L,R,L,R,L,R,L |
| `PageMapper.FfbbExample` | magazine-ocr.py:128-145 | four grouped scans give pages 1..8 from scans 0,3,1,2,2,1,3,0 with halves R,R,R,R,L,L,L,L |
| `Decimal.Value` | magazine-ocr.py:177 | `int()` of a `[0-9]+` match, most significant digit first; `k` digits denote less than `10^k` |
| `Decimal.DigitValue` | magazine-ocr.py:177 | a decimal digit's value is below ten |
| `Decimal.DigitChar` | magazine-ocr.py:250 | the digit written for a value below ten reads back as that value |
| `Decimal.Show` | magazine-ocr.py:250 | `%d` writes a nonempty run of digits: one digit exactly below ten, and a leading zero only for `0` |
| `Decimal.ShowFits` | magazine-ocr.py:250 | a number below `10^k` takes at most `k` digits, for `k >= 1` |
| `Decimal.ValueShow` | magazine-ocr.py:177 | `int()` of the `%d` text of `n` is `n` |
| `Decimal.ValueLeadingZeros` | magazine-ocr.py:250 | leading zeros do not change the value `int()` reads |
| `Decimal.Pad4` | magazine-ocr.py:250 | `%04d` writes digits that read back as the number: exactly four below 10000, and above that the plain digits with no leading zero |
| `Transform.DigitRun` | magazine-ocr.py:156-159 | a greedy `[0-9]+` takes a prefix of digits and stops only at the end or at a non-digit |
| `Transform.Number` | magazine-ocr.py:177 | a number group consumes at least one character |
| `Transform.RestOfLine` | magazine-ocr.py:156 | the `remaining` group `.*` is no longer than the text it is taken from |
| `Transform.Literal` | magazine-ocr.py:157 | a matched literal character consumes input |
| `Transform.Fields` | magazine-ocr.py:157 | digit groups between literal separators give one more value than separators and consume input |
| `Transform.MatchRotate` | magazine-ocr.py:156 | a rotate match yields a rotation and strictly shorter remaining text |
| `Transform.MatchCrop` | magazine-ocr.py:157 | a crop match yields a crop and strictly shorter remaining text |
| `Transform.MatchResizeAbsolute` | magazine-ocr.py:158 | an absolute-resize match yields an absolute resize and strictly shorter remaining text |
| `Transform.MatchResizePercent` | magazine-ocr.py:159 | a percent-resize match yields a percent resize and strictly shorter remaining text |
| `Transform.Step` | magazine-ocr.py:171-225 | one interpreter pass, patterns tried in source order, always consumes input when it matches |
| `Transform.Parse` | magazine-ocr.py:169-225 | the command list never has more commands than the text has characters |
| `Transform.TransformOnce` | magazine-ocr.py:171-225 | one loop pass: when no pattern matches, the image is unchanged and the next text is `None`; otherwise the matched command is applied and its remaining text comes next |
| `Transform.ImageTransform` | magazine-ocr.py:155-227 | absent or empty commands return the input image; otherwise the result is the parsed commands applied left to right |
| `Transform.ApplyOp` | magazine-ocr.py:176-225 | no contract; `OpSizes` states the size each command gives, rotation's being the parameter `rotate` |
| `Transform.ApplyAll` | magazine-ocr.py:167-225 | no contract; `ApplyAllAppend` states the left-to-right chaining and `ImageTransform` proves the loop equal to it |
| `Transform.OpSizes` | magazine-ocr.py:184-225 | crop to W×H and absolute resize to W×H give a W×H image whatever the input; percent N gives `floor(size*N/100)` on each side |
| `Transform.PercentText` | magazine-ocr.py:159 | `s50%` is the text of a 50% resize |
| `Transform.PercentExample` | magazine-ocr.py:214-225 | `s50%` turns a 400×300 image into 200×150 |
| `Transform.ApplyAllAppend` | magazine-ocr.py:170-225 | running two command lists one after the other is running their concatenation |
| `Transform.DigitRunOf` | magazine-ocr.py:156-159 | the greedy digit run of digits followed by a non-digit is exactly those digits |
| `Transform.NumberShow` | magazine-ocr.py:177 | a written number followed by a non-digit reads back as that number and that text |
| `Transform.RestOfLineWhole` | magazine-ocr.py:156 | `.*` takes the whole of text without a newline |
| `Transform.FieldsCons` | magazine-ocr.py:157 | one more number and separator in front adds one more group |
| `Transform.FieldsOfText` | magazine-ocr.py:157 | written digit groups with their separators read back as those numbers and the following text |
| `Transform.FieldsTextAppend` | magazine-ocr.py:157 | text after the last group is carried along unchanged |
| `Transform.PrintResizeAbsoluteText` | magazine-ocr.py:158 | an absolute-resize command's text is `s` followed by its two groups |
| `Transform.StepPrintRotate` | magazine-ocr.py:156 | one pass over a written rotation, then more commands, reads the rotation back |
| `Transform.StepPrintCrop` | magazine-ocr.py:157 | one pass over a written crop, then more commands, reads the crop back |
| `Transform.StepPrintResizeAbsolute` | magazine-ocr.py:158 | one pass over a written absolute resize, then more commands, reads it back |
| `Transform.StepPrintResizePercent` | magazine-ocr.py:159 | one pass over a written percent resize reads it back, even though the absolute pattern is tried first |
| `Transform.StepPrint` | magazine-ocr.py:171-225 | one pass over any written command, then more commands, reads that command back |
| `Transform.DigitsNoNewline` | magazine-ocr.py:156-159 | digit text holds no newline |
| `Transform.FieldsTextNoNewline` | magazine-ocr.py:157 | written digit groups hold no newline |
| `Transform.PrintNoNewline` | magazine-ocr.py:156-159 | a written command holds no newline, so `.*` passes over it |
| `Transform.PrintAllContinues` | magazine-ocr.py:156-159 | written commands start with a command letter and hold no newline |
| `Transform.PrintAllParses` | magazine-ocr.py:156-225 | every command list, written out, parses back to itself |
| `Transform.ParseDropsTail` | magazine-ocr.py:170-182 | parsing is lossy: well-formed commands followed by newline-free text, not starting with a digit, that no pattern matches parse to those commands alone, and the rest is dropped without an error |
| `Transform.DroppedTailExample` | magazine-ocr.py:170-182 | `r90zzz` parses to just a 90-degree rotation |
| `Transform.JunkDropsGlobal` | magazine-ocr.py:95-106 | a side transform string ending in unmatched text (no newline, first character neither a digit nor `r`, `c`, `s`) swallows the global commands appended after it: only the side commands are parsed |
| `Transform.SideThenGlobal` | magazine-ocr.py:95-106 | a well-formed side transform string (one written out from commands) followed by the global one parses to the side commands then the global ones, and the global ones act on the side result |
| `Transform.PrintAllConcat` | magazine-ocr.py:156-225 | the text of two command lists is the concatenation of their texts |
| `Transform.PrintRotateExample` | magazine-ocr.py:156 | rotation by 90 is written `r90` |
| `Transform.PrintCropExample` | magazine-ocr.py:157 | crop 100×50 at (10,20) is written `c100x50+10+20` |
| `Transform.PrintResizeAbsoluteExample` | magazine-ocr.py:158 | resize to 200×100 is written `s200x100` |
| `Transform.ParseThree` | magazine-ocr.py:156-225 | three written commands in a row read back as those three commands |
| `Transform.ParseExample` | magazine-ocr.py:155-227 | `r90c100x50+10+20s200x100` reads as rotate 90, crop 100×50+10+20, resize 200×100; the digit texts, the field texts and the concatenation of the three commands are intermediate steps of this proof |
| `Render.HalfBox` | magazine-ocr.py:238-248 | the half succeeds exactly for `left` and `right`; any other half aborts with `NameError("page")` |
| `Render.HalvesTile` | magazine-ocr.py:240-243 | the two halves share the split column, cover the full width and height, and are equally wide; for an even width the split is the integer `width / 2` |
| `Render.PageFileName` | magazine-ocr.py:250 | no contract; `PageNumberOfName` and `PageFileNamesDistinct` state that the name carries page number `k+1` and names one page only, and `Decimal.Pad4` states the `%04d` digits |
| `Render.PageNumberOfName` | magazine-ocr.py:250 | the file name of 0-based page `k` carries page number `k+1` |
| `Render.PageFileNamesDistinct` | magazine-ocr.py:250 | different pages get different file names |
| `Render.JoinPath` | magazine-ocr.py:254 | no contract; `JoinPathAbsolute` and `JoinPathInjective` state how `os.path.join` treats absolute and relative names |
| `Render.JoinPathAbsolute` | magazine-ocr.py:254 | an absolute name replaces the directory, so it gives the same path whatever the directory |
| `Render.JoinPathInjective` | magazine-ocr.py:254 | joining different relative names onto one directory gives different paths |
| `Render.PagePathsDistinct` | magazine-ocr.py:250-254 | different pages are written to different paths |
| `Render.CreatePageProcess` | magazine-ocr.py:229-260 | succeeds exactly for a `left` or `right` half. Returns the page number, the path of `page-%04d.png` for page number+1, and the half of the scan after its transforms. Otherwise aborts with `NameError("page")` |
| `Render.Gathered` | magazine-ocr.py:271-272 | the gather keeps the number of entries |
| `Render.GatheredAt` | magazine-ocr.py:271-272 | after the gather, each entry carries the file name of the last result tagged with its page, and is otherwise unchanged |
| `Render.NameForTagged` | magazine-ocr.py:271-272 | with one result per page, a page's name is the one in its own result |
| `Render.NameForUntagged` | magazine-ocr.py:271-272 | a page without a result gets no name |
| `Render.GatherOrderIndependent` | magazine-ocr.py:268-272 | with one result per page, the gathered plan does not depend on the order the results arrive in |
| `Render.Gather` | magazine-ocr.py:271-272 | the loop writes each result's file name into the entry its page number selects |
| `Render.GatheredPages` | magazine-ocr.py:271-272 | gathering one result per page, each tagged with its own page and path, gives every entry its own page's path and changes nothing else |
| `Render.RenderPages` | magazine-ocr.py:264-269 | all pages render exactly when every half is `left` or `right`; result `i` is page `i` with its own path and the image of entry `i`'s half after its scan's transforms; otherwise it aborts with `NameError("page")` |
| `Render.CreatePagesMultiprocess` | magazine-ocr.py:262-273 | on success every entry gains its own page's path and nothing else changes, and the image saved for entry `k` is its half after its scan's transforms; on failure the plan is untouched |
| `Render.RenderedNamesDistinct` | magazine-ocr.py:250-272 | after rendering, no two pages share a file |

## Left out

- File discovery is not modelled: `glob`, the default extensions, and `os.path.dirname` of the input directory (`magazine-ocr.py:16-24`). The ordering starts from the discovered scans.
- `os.path.getmtime` is not modelled. A scan's time is an integer field of the scan; the real times are floats.
- Pixel work is not modelled: decoding, LANCZOS resampling, rotation, saving and closing images. An image is its size, and saving is represented by the crop box.
- Rotation's canvas size is not computed. It is the parameter `rotate`, because it comes from trigonometry inside the imaging library.
- How the imaging library rounds the real split column to pixels is not modelled. Neither is its treatment of a crop box outside the image, or of a resize to zero width or height.
- `Render.RenderPages`: a sequential loop in page order stands in for `multiprocessing.Pool` and `pool.map`. `pool.map` returns results in submission order, and `Render.GatherOrderIndependent` shows that the order does not matter to the gather. Parallel execution, worker processes and memory use are not modelled.
- `Render.CreatePagesMultiprocess`: the first failing page aborts the run. With the pool, `pool.map` hands tasks to the workers in chunks and stops a chunk at its first exception, so other workers may already have written their pages when the exception surfaces. The model does not capture those files.
- `Render.CreatePageProcess`, `Render.RenderPages`, `Render.CreatePagesMultiprocess`: the exceptions that `Image.open` (`magazine-ocr.py:235`), `img.save` (`magazine-ocr.py:255`) and the imaging library's rotate and resize can raise are not modelled. `open` and `rotate` are total functions, so "succeeds exactly when every half is `left` or `right`" covers only the half check.
- Debug and progress printing is not modelled. This covers `print` calls and the `debugLvl` branches.
- The stray `'half': None` key of the `ffbb` pre-allocated entries (`magazine-ocr.py:125`) is not modelled, because nothing reads it.
- `createPages` (`magazine-ocr.py:275` onward) is dead code with an undefined name and is not part of this model.
- PDF assembly, the OCR call, argument parsing, the working-directory handling and archiving in `main` are not part of this model.

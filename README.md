# comicbatch in Dafny

This project models `comicbatch.py`. The script unpacks the CBZ archives of a
directory and rescales their JPEG pages. It then cuts the issues into groups
whose scaled size stays under a maximum file size, and writes one PDF per
group. The model covers the logic that decides what goes where, in what
order and under which name:

- `Grouping` (`grouping.dfy`): the greedy pass of `group_issues`, written as
  the loop over its three accumulators. It is proved against the
  specification function `Groups`, with the properties of the pass below.
  The variant with an emptiness guard is `GuardedGroups`.
- `Sizes` (`sizes.dfy`): the summing loop of `dir_size`.
- `Extract` (`extract.dfy`): archive discovery and numbering in
  `extract_zips`.
- `Scale` (`scale.dfy`): which files `scale_page` turns into pages, and how
  they are numbered. Also the per-issue loop of `scale_pages`.
- `Export` (`export.dfy`): renaming into the staging directory, the
  basename sort and the `img2pdf` options in `export_group`.
- `Batch` (`batch.dfy`): the export loop of the script, with its output
  names and titles.
- `Strings`, `Seqs`, `Sorting`: the Python operations these steps rely on.
  They cover string order (`<=` on `str`), `lower()`, `endswith`,
  `split('/')[-1]`, `os.path.join`, `%0Nd`, `filter`, `map`, `sum` and the
  stable `list.sort(key=...)`.

File system calls, `os.walk`/`os.listdir` results and file sizes are
parameters. The external `convert` and `img2pdf` runs are returned as
records (`Scale.Resize`, `Export.Img2pdf`), and the copies and extractions
as `Export.Copy` and `Extract.Unzip`.

Three behaviours one would expect of the script differ from what its code
does. The model follows the code:

- One would expect the rotation to close only a non-empty group. The code has
  no such guard, so one issue at or above the maximum size gives `[[], [0]]`,
  not `[[0]]`. See "## Findings".
- One might expect the staging prefix to count pages across the group
  (`0,1,2,3,4` for issues of 3 and 2 pages). The code counts issues, giving
  `000,000,000,001,001` (`Export.StagedExample`). The final order is still
  correct, because the sort compares the issue prefix first and then the
  page name (`Export.ExportPageOrder`).
- One might expect the staged files to be sorted by file name. The code
  sorts the quoted paths by `split('/')[-1]`, which keeps the closing `"`.
  The model uses that key (`Export.Closing`). For the equal-length names
  `scale_page` writes, it gives the same order as sorting by name
  (`Export.ScaledListingOrder`).

## Model

| member | source | states |
|---|---|---|
| Grouping.GroupIssues | comicbatch.py:105-132 | the loop's accumulators follow the greedy pass exactly; the returned groups, concatenated, are `0, 1, ..., count-1` |
| Grouping.ScanInv | comicbatch.py:110-127 | after every issue: the groups so far plus the current one cover `0..n-1` in order, the running size is the current group's total, the current group is non-empty, only the first group can be empty, groups of two or more stay below the maximum, and each closed group was forced by the next issue |
| Grouping.GroupsPartition | comicbatch.py:105-132 | concatenating all groups gives `0, 1, ..., count-1`, each index once and in order, so every group is a contiguous run |
| Grouping.GroupsEnds | comicbatch.py:123-131 | no issues gives no groups (and only then); otherwise the last group is non-empty |
| Grouping.GroupsUnderCeiling | comicbatch.py:125-127 | every group of two or more issues has a total strictly below `max_size`; only a single-issue group can reach or pass it |
| Grouping.GroupsRotation | comicbatch.py:125-126 | for consecutive groups, the earlier group's total plus the first size of the next group is `>= max_size`, so landing exactly on the maximum rotates |
| Grouping.GroupsEmptyGroup | comicbatch.py:110-127 | an empty group can only be the first, and it is there exactly when `count > 0` and `sizes[0] >= max_size` |
| Grouping.GroupsVersusGuarded | comicbatch.py:125-127 | the code's groups equal the guarded groups, with one extra leading `[]` exactly when the first issue alone reaches the maximum |
| Grouping.GuardedGroupsNonEmpty | comicbatch.py:123-131 | with the guard no group is empty, and the groups still partition `0..count-1` |
| Grouping.FourIssuesExample | comicbatch.py:123-131 | three issues below the maximum followed by one that reaches it give `[[0,1,2],[3]]` |
| Grouping.ExampleFourThirties | comicbatch.py:123-131 | sizes 30,30,30,30 under 100 give `[[0,1,2],[3]]` |
| Grouping.TwoIssuesExample | comicbatch.py:123-131 | two issues that together reach the maximum give `[[0],[1]]` |
| Grouping.ExampleTwoSixties | comicbatch.py:123-131 | sizes 60,60 under 100 give `[[0],[1]]` |
| Grouping.ExampleAtCeiling | comicbatch.py:123-131 | a single issue at or above the maximum gives `[[],[0]]` as written and `[[0]]` with the guard |
| Sizes.DirSize | comicbatch.py:97-103 | the nested loop returns the sum of all file sizes over all walked directories |
| Sizes.DirSizeOrderFree | comicbatch.py:99-101 | the total does not depend on the order the walk lists directories and files in |
| Seqs.SumPermutation | comicbatch.py:99-101 | a sum is the same for any reordering of its terms |
| Seqs.FilterContents | comicbatch.py:53-58 | `filter` keeps every element satisfying the predicate as often as it occurs, and nothing else |
| Seqs.FilterPermutation | comicbatch.py:53-58 | filtering reorderings of a list gives reorderings of the result |
| Extract.ExtractZips | comicbatch.py:52-67 | the count is the number of listed names whose lower-cased form ends in `cbz`; the extractions are those `Unzips` plans for these names in lower-cased order |
| Extract.UnzipsIndex | comicbatch.py:61-66 | there is one extraction per archive; extraction `k` opens the `k`-th archive under the input directory and writes into `tmp/src/%04d` of `k` |
| Extract.DiscoveredOrdered | comicbatch.py:53-59 | there are as many numbered archives as matching names; they are ordered by lower-cased name, and they are exactly the listed names ending in `cbz` |
| Extract.DiscoveryOrderFree | comicbatch.py:53-59 | any `os.listdir` order gives the same numbering, as long as no two archive names differ only in case |
| Extract.SourceDirsDistinct | comicbatch.py:63-65 | different archives are extracted into different directories |
| Scale.WalkPathsNames | comicbatch.py:71-74 | the collected paths match the walked file names one to one and in order: mapping `split('/')[-1]` over the paths gives back the walked names |
| Scale.ScalePage | comicbatch.py:69-88 | the resize runs are those of the kept pages of all walked files, in page order, numbered by the `page` counter |
| Scale.CollectFiles | comicbatch.py:71-73 | the walk loop collects every walked file joined onto its directory, directory by directory |
| Scale.PageStep | comicbatch.py:77-88 | a JPEG adds one run, for the next page number, and advances the counter; any other file is skipped and changes nothing |
| Scale.JobsAppend | comicbatch.py:76-88 | keeping one more page adds one run that writes `page_%03d.jpg` of the current page count |
| Scale.JobsIndex | comicbatch.py:76-88 | run `k` reads the `k`-th kept page and writes `page_%03d.jpg` of `k` at quality 60 |
| Scale.ScalePages | comicbatch.py:90-95 | one list of runs per issue, in issue order |
| Scale.ScalePagesIndex | comicbatch.py:90-94 | issue `i` gets the runs `scale_page` plans for reading `src/%04d` and writing `dst/%04d` of `i` |
| Scale.IssueDirsDistinct | comicbatch.py:92-93 | every issue is scaled into its own directory |
| Scale.WalkKey | comicbatch.py:73-74 | the sort key of a walked path is its lower-cased file name |
| Scale.JpegByName | comicbatch.py:78 | testing the whole path for `jpg` is the same as testing its base name |
| Scale.PagesOrdered | comicbatch.py:74-79 | pages are ordered by lower-cased base name and are exactly the JPEG files |
| Scale.PagesAreSortedJpegs | comicbatch.py:74-79 | sort-then-filter equals filter-then-sort, as long as no two JPEG files share a base name up to case |
| Scale.PagesOrderFree | comicbatch.py:72-79 | page numbering does not depend on the order `os.walk` lists files in, as long as no two JPEG files share a base name up to case |
| Scale.PageCount | comicbatch.py:76-88 | there are exactly as many pages as JPEG files |
| Scale.ScaleJobsNumbering | comicbatch.py:76-88 | page numbers run from 0 with no gap, one per JPEG; run `k` reads a JPEG and writes `page_%03d.jpg` of `k` at quality 60 |
| Scale.ScaleTargetsDistinct | comicbatch.py:85 | no two runs write the same page file |
| Scale.PageNamesDistinct | comicbatch.py:85 | different page numbers give different page names |
| Scale.PageNameOrder | comicbatch.py:85 | below 1000, page names sort in page-number order |
| Export.OptionalArgs | comicbatch.py:160-164 | there is a `--title "<t>"` option exactly when the title is truthy, and an `--author "<a>"` option exactly when the author is, in that order |
| Export.StagePages | comicbatch.py:142-150 | the copy loop makes exactly the group's planned copies, issue by issue, in listing order |
| Export.StageIssue | comicbatch.py:145-149 | one issue's copies, one per listed page in listing order, each from the issue directory to `%03d_<page>` of the position in the staging directory |
| Export.ExportGroup | comicbatch.py:134-171 | makes the planned copies; `img2pdf` gets the output path, the options and the quoted staged paths sorted by basename; when the staging directory holds exactly the staged names, the pages arrive in the intended order |
| Export.IssueCopiesPaths | comicbatch.py:144-149 | an issue's pages are copied from its own directory, into the staging directory under `%03d_<page>` of its position |
| Export.GroupCopiesTargets | comicbatch.py:142-150 | the group's copy targets are the staged names in staging order; the prefix is the issue's position, shared by all its pages |
| Export.StagedExample | comicbatch.py:142-150 | issues of 3 and 2 pages get the prefixes `000,000,000,001,001` |
| Export.PrefixExamples | comicbatch.py:148 | `%03d` of 0 and 1 is `000` and `001` |
| Export.PagesPathEnd | comicbatch.py:135 | the staging directory's path ends in `pages`, so its last character is `s` and not `/` |
| Export.QuoteSplit | comicbatch.py:154 | a quoted joined path is the opening quote and the directory, then a `/`, then the name followed by the closing quote |
| Export.QuotedKey | comicbatch.py:154-158 | the sort key of a quoted staged path is the name with its closing quote |
| Export.QuotedCompatible | comicbatch.py:154-158 | sorting the quoted paths by key orders them as their names are ordered by that key |
| Export.ClosingInjective | comicbatch.py:158 | different names have different sort keys |
| Export.StagedAtCompatible | comicbatch.py:148 | the shared prefix keeps the order of one issue's names |
| Export.BlockIsSorted | comicbatch.py:148-158 | one issue's block in the intended order is its staged names, sorted, and a reordering of them |
| Export.CanonicalPermutation | comicbatch.py:142-158 | the intended order holds exactly the staged names |
| Export.BlockAfterPrefix | comicbatch.py:148 | every name staged for a position sorts at or after that position's `%03d` |
| Export.BlockBeforeNext | comicbatch.py:148 | below 1000, every name staged for a position sorts before the next position's `%03d` |
| Export.CanonicalSorted | comicbatch.py:142-158 | with at most 1000 issues, the intended order (issue, then page name) is ordered by the sort key |
| Export.ExportPageOrder | comicbatch.py:142-158 | with at most 1000 issues, sorting the staged paths by basename gives issue-then-page order, whatever order `os.listdir` lists the staging directory in |
| Export.CanonicalOrderFree | comicbatch.py:145 | the intended order does not depend on the order each issue's directory is listed in |
| Export.ScaledListingOrder | comicbatch.py:145-158 | pages named `page_000.jpg` up to at most `page_999.jpg`, in any order, sort back into page order |
| Batch.ExportAll | comicbatch.py:200-209 | group `k` (0-based) is exported to `<prefix>_%03d.pdf` of `k+1`, joined onto the source directory unless the prefix is an absolute path, titled `<title> k+1` only when a title is given, with the author passed as is |
| Batch.OutputNamesDistinct | comicbatch.py:205 | different ordinals give different output files, for a relative and for an absolute prefix |
| Batch.OutputNameOrder | comicbatch.py:205 | below 1000, output files sort in group order, for a relative and for an absolute prefix |
| Batch.JoinOrder | comicbatch.py:205 | joining onto one directory keeps the order of names |
| Batch.GroupTitleShape | comicbatch.py:206 | a title is produced exactly when the title option is truthy; it is the title, a space and the decimal digits of the ordinal |
| Sorting.SortBy | comicbatch.py:59 | sorting returns a reordering of its input |
| Sorting.SortBySorted | comicbatch.py:59 | the result of sorting is ordered by key |
| Sorting.SortedUnique | comicbatch.py:59 | two key-ordered reorderings of the same list under an injective key are equal |
| Sorting.SortByOrderIndependent | comicbatch.py:59 | under an injective key, sorting forgets the input order |
| Sorting.SortByIsSorted | comicbatch.py:158 | a key-ordered list is what sorting any of its reorderings gives, under an injective key |
| Sorting.FilterSorted | comicbatch.py:77-79 | skipping elements of a sorted list keeps it sorted |
| Sorting.SortByMap | comicbatch.py:152-158 | sorting mapped names equals mapping the sorted names when the two keys agree on order |
| Strings.LeTotal | comicbatch.py:59 | any two strings are comparable |
| Strings.LeAntisymmetric | comicbatch.py:59 | strings that are each `<=` the other are equal |
| Strings.LeTransitive | comicbatch.py:59 | string order is transitive |
| Strings.LeCommonPrefix | comicbatch.py:148 | a common prefix does not change the order |
| Strings.Lower | comicbatch.py:55 | lower-casing keeps the length and lower-cases each character |
| Strings.LastComponent | comicbatch.py:74 | `split('/')[-1]` is a `/`-free suffix that follows a `/` or is the whole string |
| Strings.LastComponentOfJoin | comicbatch.py:73-74 | the last component of a joined path is the joined name |
| Strings.JoinInjective | comicbatch.py:63 | joining onto one directory keeps different names apart |
| Strings.PadValue | comicbatch.py:63 | `%0Nd` writes only digits, which read back as the number written |
| Strings.PadLength | comicbatch.py:63 | below `10^N`, `%0Nd` is exactly `N` characters |
| Strings.PadInjective | comicbatch.py:63 | different numbers are written differently |
| Strings.PadOrder | comicbatch.py:148 | below `10^N`, the string order of `%0Nd` agrees with number order |

## Left out

- File system effects are not modelled: `os.mkdir`, `zipfile` extraction,
  `shutil.copyfile`/`rmtree`, `init_tmp`, the recreation of the staging
  directory and the final cleanup (comicbatch.py:43-50, 135-140, 211). What
  `os.listdir`, `os.walk` and `os.path.getsize` return are parameters.
- The `convert` and `img2pdf` command strings are not modelled: no shell
  quoting, and no `' '.join` of options and pages. Each run is a record of
  its arguments.
- The argument parser (comicbatch.py:8-41) is not modelled. The parsed
  values are parameters. The options have no `type=int`, so numbers given on
  the command line arrive as strings. The model takes them as numbers.
- The progress `print`s are not modelled.
- The glue of the top-level script (comicbatch.py:173-199) is not one
  method. Each stage is modelled on its own, and `Batch.ExportAll` takes the
  groups as input.
- Grouping.GroupIssues: takes the issue sizes as a sequence. It does not
  call `dir_size` on `src/%04d` itself (comicbatch.py:124); `Sizes.DirSize`
  models that call.
- Strings.Lower: lower-cases ASCII letters only. Python's `str.lower` also
  maps other Unicode letters.
- Strings.Join: models `os.path.join` for a relative second part only.
  Every name joined by the script is relative except the output name, whose
  prefix is the user's `--output` option. `Batch.OutputName` therefore uses
  `Strings.PathJoin`, which keeps an absolute second part and drops the
  directory. Only a leading `/` counts as absolute.
- Sorting.SortBy: the model's stable insertion sort has the same result as
  Python's sort. Its stability is not stated as a property. The
  order-independence lemmas assume an injective key instead.
- Export.ExportGroup: the intended page order is stated only under
  `WellStaged`. That premise says the staging directory lists exactly the
  staged names, the group has at most 1000 issues, and no name holds a `/`.
  With more issues, `1000_...` sorts before `101_...`.
- Export.ScaledListingOrder and Scale.PageNameOrder: hold below 1000 pages.
  With more, `page_1000.jpg` sorts between `page_100.jpg` and `page_101.jpg`.
- Batch.OutputNameOrder: holds below 1000 groups, for the same reason.
- Scale.PagesOrderFree and Scale.PagesAreSortedJpegs: assume that no two
  JPEG files of an issue share a base name up to case. The sort at
  comicbatch.py:74 compares base names only. So when two subdirectories
  hold the same name (`a/1.jpg` and `b/1.jpg`), the stable sort keeps them
  in `os.walk` order, and the page order follows the walk.

## Findings

| source | as written | input that shows it | evidently intended | confidence | as-written member | corrected member |
|---|---|---|---|---|---|---|
| comicbatch.py:125-126 | the rotation closes the current group even when it is empty | one issue whose size is at least `max_size` (`sizes = [c]`, `max_size = c`) gives `[[], [0]]`, so `export_group` runs on an empty group and every later output number shifts by one | close only a non-empty group, giving `[[0]]`: no group is empty and the groups still partition the issues | not executed | Grouping.ExampleAtCeiling | Grouping.GuardedGroupsNonEmpty |

The code's behaviour is modelled by `Grouping.Groups` and `Grouping.GroupIssues`.
`Grouping.GroupsEmptyGroup` proves exactly when the empty group appears.
`Grouping.GroupsVersusGuarded` proves that this leading `[]` is the only
difference from `Grouping.GuardedGroups`.

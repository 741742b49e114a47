/** Page selection and numbering in `scale_page` and `scale_pages`
    (comicbatch.py:69-95). */
module Scale {
  import opened Strings
  import opened Seqs
  import opened Sorting

  /** One triple `(root, dirs, files)` yielded by `os.walk`; the
      subdirectory names are not used. */
  datatype WalkEntry = WalkEntry(root: string, files: seq<string>)

  /** One ImageMagick run, `convert "<source>" -quality <q> -resize <w>x<h> "<target>"`. */
  datatype Resize = Resize(source: string, target: string, width: nat, height: nat, quality: nat)

  /** The JPEG quality every page is written with. */
  const Quality: nat := 60

  /** `f.lower().endswith('jpg')`. */
  predicate IsJpeg(path: string)
  {
    EndsWith(Lower(path), "jpg")
  }

  /** The sort key `s.split('/')[-1].lower()`. */
  function LowerBase(path: string): string
  {
    Lower(LastComponent(path))
  }

  /** `'page_%03d.jpg' % k`. */
  function PageName(k: nat): string
  {
    "page_" + Pad(k, 3) + ".jpg"
  }

  /** `map(lambda f: os.path.join(root, f), files)`. */
  function UnderRoot(root: string, files: seq<string>): seq<string>
  {
    seq(|files|, i requires 0 <= i < |files| => Join(root, files[i]))
  }

  /** Every file path the walk yields, directory by directory. */
  function WalkPaths(walk: seq<WalkEntry>): seq<string>
  {
    if |walk| == 0 then []
    else WalkPaths(walk[..|walk| - 1]) + UnderRoot(walk[|walk| - 1].root, walk[|walk| - 1].files)
  }

  /** The file names the walk yields, directory by directory, without their roots. */
  function WalkNames(walk: seq<WalkEntry>): seq<string>
  {
    if |walk| == 0 then [] else WalkNames(walk[..|walk| - 1]) + walk[|walk| - 1].files
  }

  /** No name holds a `/`, as for the file names `os.walk` yields. */
  predicate NoSlash(names: seq<string>)
  {
    forall i :: 0 <= i < |names| ==> '/' !in names[i]
  }

  lemma NoSlashSplit(a: seq<string>, b: seq<string>)
    requires NoSlash(a + b)
    ensures NoSlash(a) && NoSlash(b)
  {
    forall i | 0 <= i < |a| ensures '/' !in a[i] {
      assert a[i] == (a + b)[i];
    }
    forall i | 0 <= i < |b| ensures '/' !in b[i] {
      assert b[i] == (a + b)[|a| + i];
    }
  }

  /** The paths of one directory end in its file names, in order. */
  lemma UnderRootNames(root: string, files: seq<string>)
    requires NoSlash(files)
    ensures Map(LastComponent, UnderRoot(root, files)) == files
  {
    var paths := UnderRoot(root, files);
    var names := Map(LastComponent, paths);
    assert |names| == |files|;
    forall i | 0 <= i < |files| ensures names[i] == files[i] {
      assert names[i] == LastComponent(paths[i]);
      assert paths[i] == Join(root, files[i]);
      LastComponentOfJoin(root, files[i]);
    }
  }

  /** The collected paths match the walked file names one to one, in order:
      the last component of path `i` is file name `i`, since no file name
      that `os.walk` yields holds a `/`. */
  lemma {:induction false} WalkPathsNames(walk: seq<WalkEntry>)
    requires NoSlash(WalkNames(walk))
    ensures Map(LastComponent, WalkPaths(walk)) == WalkNames(walk)
  {
    if |walk| > 0 {
      var w', e := walk[..|walk| - 1], walk[|walk| - 1];
      assert WalkPaths(walk) == WalkPaths(w') + UnderRoot(e.root, e.files);
      assert WalkNames(walk) == WalkNames(w') + e.files;
      NoSlashSplit(WalkNames(w'), e.files);
      WalkPathsNames(w');
      UnderRootNames(e.root, e.files);
      MapConcat(LastComponent, WalkPaths(w'), UnderRoot(e.root, e.files));
    }
  }

  /** The files that become pages, in page order: all files sorted by
      lower-cased base name, then those that are JPEGs. */
  function Pages(files: seq<string>): seq<string>
  {
    Filter(IsJpeg, SortBy(files, LowerBase))
  }

  /** The resize runs for a set of files: the `k`-th page becomes `page_%03d.jpg` of `k`. */
  function ScaleJobs(files: seq<string>, dst: string, w: nat, h: nat): seq<Resize>
  {
    Jobs(Pages(files), dst, w, h)
  }

  /** The resize runs for pages already in page order. */
  function Jobs(pages: seq<string>, dst: string, w: nat, h: nat): seq<Resize>
  {
    if |pages| == 0 then []
    else Jobs(pages[..|pages| - 1], dst, w, h) + [Resize(pages[|pages| - 1], Join(dst, PageName(|pages| - 1)), w, h, Quality)]
  }

  lemma JobsAppend(pages: seq<string>, x: string, dst: string, w: nat, h: nat)
    ensures Jobs(pages + [x], dst, w, h) == Jobs(pages, dst, w, h) + [Resize(x, Join(dst, PageName(|pages|)), w, h, Quality)]
  {
    assert (pages + [x])[..|pages|] == pages;
  }

  /** The `k`-th run reads the `k`-th page and writes `page_%03d.jpg` of `k`. */
  lemma {:induction false} JobsIndex(pages: seq<string>, dst: string, w: nat, h: nat)
    ensures |Jobs(pages, dst, w, h)| == |pages|
    ensures forall k :: 0 <= k < |pages| ==>
      Jobs(pages, dst, w, h)[k] == Resize(pages[k], Join(dst, PageName(k)), w, h, Quality)
  {
    if |pages| > 0 {
      var p' := pages[..|pages| - 1];
      JobsIndex(p', dst, w, h);
      forall k | 0 <= k < |p'| ensures pages[k] == p'[k] { }
    }
  }

  /** `os.path.join(d, '%04d' % i)`: the directory of issue `i` under `d`. */
  function IssueDir(d: string, i: nat): string
  {
    Join(d, Pad(i, 4))
  }

  /** The files `os.walk` yields for issue `i` under `src`, i.e. under `src/%04d`. */
  function IssueFiles(walker: string -> seq<WalkEntry>, src: string, i: nat): seq<string>
  {
    WalkPaths(walker(IssueDir(src, i)))
  }

  /** `scale_page(src, dst, w, h)` where `walk` is what `os.walk(src)` yields. */
  method ScalePage(walk: seq<WalkEntry>, dst: string, w: nat, h: nat) returns (jobs: seq<Resize>)
    ensures jobs == ScaleJobs(WalkPaths(walk), dst, w, h)
  {
    var allFiles := CollectFiles(walk);
    var sorted := SortBy(allFiles, LowerBase);
    var page: nat := 0;
    jobs := [];
    for idx := 0 to |sorted|
      invariant jobs == Jobs(Filter(IsJpeg, sorted[..idx]), dst, w, h)
      invariant page == |Filter(IsJpeg, sorted[..idx])|
    {
      var f := sorted[idx];
      PageStep(sorted, idx, dst, w, h);
      if !IsJpeg(f) {
        continue;
      }
      jobs := jobs + [Resize(f, Join(dst, PageName(page)), w, h, Quality)];
      page := page + 1;
    }
    assert sorted[..|sorted|] == sorted;
  }

  /** One iteration of the page loop: a JPEG adds the run for the next page
      number, any other file changes nothing. */
  lemma PageStep(files: seq<string>, idx: nat, dst: string, w: nat, h: nat)
    requires idx < |files|
    ensures var before, after := Filter(IsJpeg, files[..idx]), Filter(IsJpeg, files[..idx + 1]);
      if IsJpeg(files[idx]) then
        && |after| == |before| + 1
        && Jobs(after, dst, w, h) == Jobs(before, dst, w, h) + [Resize(files[idx], Join(dst, PageName(|before|)), w, h, Quality)]
      else after == before
  {
    FilterStep(IsJpeg, files, idx);
    var before := Filter(IsJpeg, files[..idx]);
    if IsJpeg(files[idx]) {
      JobsAppend(before, files[idx], dst, w, h);
    } else {
      assert before + [] == before;
    }
  }

  /** The `os.walk` loop of `scale_page`: every file under the issue
      directory, joined onto the directory it was found in. */
  method CollectFiles(walk: seq<WalkEntry>) returns (allFiles: seq<string>)
    ensures allFiles == WalkPaths(walk)
  {
    allFiles := [];
    for d := 0 to |walk|
      invariant allFiles == WalkPaths(walk[..d])
    {
      assert walk[..d + 1][..d] == walk[..d];
      allFiles := allFiles + UnderRoot(walk[d].root, walk[d].files);
    }
    assert walk[..|walk|] == walk;
  }

  /** The resize runs `scale_page` plans for issue `i`. */
  function IssueJobs(src: string, dst: string, walker: string -> seq<WalkEntry>, w: nat, h: nat): nat -> seq<Resize>
  {
    (i: nat) => ScaleJobs(IssueFiles(walker, src, i), IssueDir(dst, i), w, h)
  }

  /** `scale_pages(src, dst, count, w, h)`: `walker(d)` is what `os.walk(d)`
      yields for a directory `d`. The result holds the runs of each issue in
      turn. */
  method ScalePages(src: string, dst: string, count: nat, walker: string -> seq<WalkEntry>, w: nat, h: nat)
    returns (jobs: seq<seq<Resize>>)
    ensures jobs == Tabulate(IssueJobs(src, dst, walker, w, h), count)
  {
    jobs := [];
    for i := 0 to count
      invariant jobs == Tabulate(IssueJobs(src, dst, walker, w, h), i)
    {
      var outPath := Join(dst, Pad(i, 4));
      var issueJobs := ScalePage(walker(Join(src, Pad(i, 4))), outPath, w, h);
      jobs := jobs + [issueJobs];
    }
  }

  /** One entry per issue, and issue `i` gets exactly the runs `scale_page`
      plans for reading `src/%04d` and writing `dst/%04d`. */
  lemma ScalePagesIndex(src: string, dst: string, count: nat, walker: string -> seq<WalkEntry>, w: nat, h: nat)
    ensures |Tabulate(IssueJobs(src, dst, walker, w, h), count)| == count
    ensures forall i :: 0 <= i < count ==>
      Tabulate(IssueJobs(src, dst, walker, w, h), count)[i] == ScaleJobs(IssueFiles(walker, src, i), IssueDir(dst, i), w, h)
  {
    TabulateIndex(IssueJobs(src, dst, walker, w, h), count);
  }

  /** Every issue is scaled into a directory of its own. */
  lemma IssueDirsDistinct(dst: string, i: nat, j: nat)
    requires i != j
    ensures Join(dst, Pad(i, 4)) != Join(dst, Pad(j, 4))
  {
    if Join(dst, Pad(i, 4)) == Join(dst, Pad(j, 4)) {
      JoinInjective(dst, Pad(i, 4), Pad(j, 4));
      PadInjective(i, j, 4);
    }
  }

  /** A `/`-free suffix ends the lower-cased path exactly when it ends the
      lower-cased base name: walking back from the end, both strings agree
      up to the last `/`, which the suffix cannot match. */
  lemma {:induction false} SuffixByBase(path: string, suffix: string)
    requires '/' !in suffix
    ensures EndsWith(Lower(path), suffix) <==> EndsWith(LowerBase(path), suffix)
    decreases |path|
  {
    if |suffix| == 0 {
      assert Lower(path)[|Lower(path)|..] == [] && LowerBase(path)[|LowerBase(path)|..] == [];
    } else if |path| > 0 {
      var init, c := path[..|path| - 1], path[|path| - 1];
      var rest, d := suffix[..|suffix| - 1], suffix[|suffix| - 1];
      assert path == init + [c] && suffix == rest + [d];
      if c == '/' {
        SlashEndsBase(init, suffix);
      } else {
        assert '/' !in rest by {
          assert forall x :: x in rest ==> x in suffix;
        }
        SuffixByBase(init, rest);
        BaseStep(init, c, rest, d);
      }
    }
  }

  /** After a final `/` the base name is empty and no `/`-free suffix but
      the empty one ends the path. */
  lemma SlashEndsBase(init: string, suffix: string)
    requires '/' !in suffix && |suffix| > 0
    ensures !EndsWith(Lower(init + ['/']), suffix) && !EndsWith(LowerBase(init + ['/']), suffix)
  {
    var rest, d := suffix[..|suffix| - 1], suffix[|suffix| - 1];
    assert suffix == rest + [d] && d in suffix;
    LowerSnoc(init, '/');
    EndsWithSnoc(Lower(init), LowerChar('/'), rest, d);
    assert LastComponent(init + ['/']) == [];
  }

  /** Another character other than `/` extends the path and its base name alike. */
  lemma BaseStep(init: string, c: char, rest: string, d: char)
    requires c != '/'
    requires EndsWith(Lower(init), rest) <==> EndsWith(LowerBase(init), rest)
    ensures EndsWith(Lower(init + [c]), rest + [d]) <==> EndsWith(LowerBase(init + [c]), rest + [d])
  {
    LowerSnoc(init, c);
    LowerBaseSnoc(init, c);
    EndsWithSnocIff(Lower(init), LowerBase(init), LowerChar(c), rest, d);
  }

  lemma LowerBaseSnoc(init: string, c: char)
    requires c != '/'
    ensures LowerBase(init + [c]) == LowerBase(init) + [LowerChar(c)]
  {
    var path := init + [c];
    assert path[..|path| - 1] == init;
    assert LastComponent(path) == LastComponent(init) + [c];
    LowerSnoc(LastComponent(init), c);
  }

  /** Checking the whole path for `jpg` is checking its base name: the
      character before a base name is a `/`. */
  lemma JpegByName(path: string)
    ensures IsJpeg(path) <==> EndsWith(LowerBase(path), "jpg")
  {
    var jpg := "jpg";
    assert '/' !in jpg by {
      assert jpg == ['j', 'p', 'g'];
    }
    SuffixByBase(path, jpg);
    assert IsJpeg(path) == EndsWith(Lower(path), jpg);
  }

  /** For a walked path the sort key is the lower-cased file name. */
  lemma WalkKey(root: string, f: string)
    requires '/' !in f
    ensures LowerBase(Join(root, f)) == Lower(f)
  {
    LastComponentOfJoin(root, f);
  }

  /** Pages come out ordered by lower-cased base name, and they are exactly
      the JPEGs among the files. */
  lemma PagesOrdered(files: seq<string>)
    ensures SortedBy(Pages(files), LowerBase)
    ensures multiset(Pages(files)) == multiset(Filter(IsJpeg, files))
  {
    SortBySorted(files, LowerBase);
    FilterSorted(IsJpeg, SortBy(files, LowerBase), LowerBase);
    FilterPermutation(IsJpeg, SortBy(files, LowerBase), files);
  }

  /** Filtering after sorting is sorting the JPEGs, as long as no two JPEG
      files share a base name up to case (the same name in two subdirectories
      counts too). */
  lemma PagesAreSortedJpegs(files: seq<string>)
    requires KeyInjective(Filter(IsJpeg, files), LowerBase)
    ensures Pages(files) == SortBy(Filter(IsJpeg, files), LowerBase)
  {
    PagesOrdered(files);
    var jpegs := Filter(IsJpeg, files);
    forall x, y | x in Pages(files) && y in Pages(files) && LowerBase(x) == LowerBase(y)
      ensures x == y
    {
      assert x in multiset(Pages(files)) && y in multiset(Pages(files));
      assert x in multiset(jpegs) && y in multiset(jpegs);
    }
    SortByIsSorted(Pages(files), jpegs, LowerBase);
  }

  /** The page numbering does not depend on the order `os.walk` lists files
      in, as long as no two JPEG files share a base name up to case. */
  lemma PagesOrderFree(a: seq<string>, b: seq<string>)
    requires multiset(a) == multiset(b)
    requires KeyInjective(Filter(IsJpeg, a), LowerBase)
    ensures Pages(a) == Pages(b)
  {
    FilterPermutation(IsJpeg, a, b);
    var ja, jb := Filter(IsJpeg, a), Filter(IsJpeg, b);
    assert KeyInjective(jb, LowerBase) by {
      forall x | x in jb ensures x in ja {
        assert x in multiset(jb);
      }
    }
    PagesAreSortedJpegs(a);
    PagesAreSortedJpegs(b);
    SortByOrderIndependent(ja, jb, LowerBase);
  }

  /** As many pages as JPEG files. */
  lemma PageCount(files: seq<string>)
    ensures |Pages(files)| == |Filter(IsJpeg, files)|
  {
    PagesOrdered(files);
    assert |multiset(Pages(files))| == |multiset(Filter(IsJpeg, files))|;
  }

  /** Page numbers run from 0 with no gap, as many as there are JPEGs, and
      the run with number `k` reads a JPEG and writes `page_%03d.jpg` of `k`
      at quality 60. */
  lemma ScaleJobsNumbering(files: seq<string>, dst: string, w: nat, h: nat)
    ensures |ScaleJobs(files, dst, w, h)| == |Filter(IsJpeg, files)|
    ensures forall k :: 0 <= k < |ScaleJobs(files, dst, w, h)| ==>
      IsJpeg(ScaleJobs(files, dst, w, h)[k].source) &&
      ScaleJobs(files, dst, w, h)[k].target == Join(dst, PageName(k)) &&
      ScaleJobs(files, dst, w, h)[k].quality == Quality
  {
    var pages := Pages(files);
    PageCount(files);
    JobsIndex(pages, dst, w, h);
    FilterContents(IsJpeg, SortBy(files, LowerBase));
    forall k | 0 <= k < |pages| ensures IsJpeg(pages[k]) {
      assert pages[k] in pages;
    }
  }

  /** No two runs write the same page. */
  lemma ScaleTargetsDistinct(files: seq<string>, dst: string, w: nat, h: nat, j: nat, k: nat)
    requires j < k < |ScaleJobs(files, dst, w, h)|
    ensures ScaleJobs(files, dst, w, h)[j].target != ScaleJobs(files, dst, w, h)[k].target
  {
    ScaleJobsNumbering(files, dst, w, h);
    PageNamesDistinct(j, k);
    if Join(dst, PageName(j)) == Join(dst, PageName(k)) {
      JoinInjective(dst, PageName(j), PageName(k));
    }
  }

  lemma PageNamesDistinct(j: nat, k: nat)
    requires j != k
    ensures PageName(j) != PageName(k)
  {
    if PageName(j) == PageName(k) {
      var n := PageName(j);
      assert n[5..|n| - 4] == Pad(j, 3);
      assert PageName(k)[5..|n| - 4] == Pad(k, 3);
      PadInjective(j, k, 3);
    }
  }

  /** Below 1000 pages, page names sort in page-number order. */
  lemma PageNameOrder(j: nat, k: nat)
    requires j < k < 1000
    ensures Lt(PageName(j), PageName(k))
  {
    assert Pow10(3) == 1000;
    PadOrder(j, k, 3);
    PadLength(j, 3);
    PadLength(k, 3);
    LtExtend(Pad(j, 3), Pad(k, 3), ".jpg", ".jpg");
    var pj, pk := Pad(j, 3) + ".jpg", Pad(k, 3) + ".jpg";
    LeCommonPrefix("page_", pj, pk);
    assert ("page_" + pj)[5..] == pj && ("page_" + pk)[5..] == pk;
    assert "page_" + Pad(j, 3) + ".jpg" == "page_" + pj;
    assert "page_" + Pad(k, 3) + ".jpg" == "page_" + pk;
  }
}

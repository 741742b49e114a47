/** Staging and ordering of the pages of one output file in `export_group`
    (comicbatch.py:134-171). */
module Export {
  import opened Strings
  import opened Seqs
  import opened Sorting
  import Scale

  /** One `shutil.copyfile(source, target)`. */
  datatype Copy = Copy(source: string, target: string)

  /** One `img2pdf --output "<output>" <options> <pages>` run. */
  datatype Img2pdf = Img2pdf(output: string, options: seq<string>, pages: seq<string>)

  /** `os.path.join(temp_path, 'pages')`, the staging directory. */
  function PagesPath(tempPath: string): string
  {
    Join(tempPath, "pages")
  }

  /** `os.path.join(temp_path, 'scaled', '%04d' % issue)`. */
  function ScaledDir(tempPath: string, issue: nat): string
  {
    Join(Join(tempPath, "scaled"), Pad(issue, 4))
  }

  /** `'%03d_%s' % (pos, page)`: a page of the issue at position `pos` of the group. */
  function StagedName(pos: nat, page: string): string
  {
    Pad(pos, 3) + "_" + page
  }

  function StagedAt(pos: nat): string -> string
  {
    page => StagedName(pos, page)
  }

  /** `'"%s"' % s`. */
  function Quote(s: string): string
  {
    "\"" + s + "\""
  }

  /** `lambda f: '"%s"' % os.path.join(dir, f)`. */
  function Quoted(dir: string): string -> string
  {
    f => Quote(Join(dir, f))
  }

  /** What the sort key `f.split('/')[-1]` yields for a quoted path: the
      name with the closing quote still attached. */
  function Closing(name: string): string
  {
    name + "\""
  }

  /** Python truthiness of an optional string: present and non-empty. */
  predicate Truthy(o: Option<string>)
  {
    o.Some? && |o.value| > 0
  }

  /** The `--title` and `--author` options, each only when its value is truthy. */
  function OptionalArgs(title: Option<string>, author: Option<string>): (r: seq<string>)
    ensures |r| == (if Truthy(title) then 1 else 0) + (if Truthy(author) then 1 else 0)
    ensures Truthy(title) ==> r[0] == "--title " + Quote(title.value)
    ensures Truthy(author) ==> r[|r| - 1] == "--author " + Quote(author.value)
  {
    (if Truthy(title) then ["--title " + Quote(title.value)] else [])
      + (if Truthy(author) then ["--author " + Quote(author.value)] else [])
  }

  /** The copies of one issue's pages, in the order `os.listdir` gave them. */
  function IssueCopies(pos: nat, src: string, pagesPath: string, names: seq<string>): seq<Copy>
  {
    if |names| == 0 then []
    else
      var page := names[|names| - 1];
      IssueCopies(pos, src, pagesPath, names[..|names| - 1])
        + [Copy(Join(src, page), Join(pagesPath, StagedName(pos, page)))]
  }

  /** The copies of the whole group, issue by issue; `listdir(d)` is what
      `os.listdir(d)` returns. */
  function GroupCopies(indices: seq<nat>, tempPath: string, listdir: string -> seq<string>): seq<Copy>
  {
    if |indices| == 0 then []
    else
      var pos := |indices| - 1;
      var src := ScaledDir(tempPath, indices[pos]);
      GroupCopies(indices[..pos], tempPath, listdir) + IssueCopies(pos, src, PagesPath(tempPath), listdir(src))
  }

  function ListingOf(tempPath: string, listdir: string -> seq<string>): nat -> seq<string>
  {
    (issue: nat) => listdir(ScaledDir(tempPath, issue))
  }

  /** The page names of each issue of the group, in group order. */
  function Listings(indices: seq<nat>, tempPath: string, listdir: string -> seq<string>): seq<seq<string>>
  {
    Map(ListingOf(tempPath, listdir), indices)
  }

  /** The staged names, issue by issue, each issue's pages in listing order. */
  function Staged(listings: seq<seq<string>>): seq<string>
  {
    if |listings| == 0 then []
    else
      var pos := |listings| - 1;
      Staged(listings[..pos]) + Map(StagedAt(pos), listings[pos])
  }

  /** The intended page order: issue by issue, and within an issue by page name. */
  function Canonical(listings: seq<seq<string>>): seq<string>
  {
    if |listings| == 0 then []
    else
      var pos := |listings| - 1;
      Canonical(listings[..pos]) + Map(StagedAt(pos), SortBy(listings[pos], Closing))
  }

  /** The copy loop of `export_group`: every page of the issue at position
      `i` of the group is copied to the staging directory as `%03d_<page>`
      of `i`. */
  method StagePages(indices: seq<nat>, tempPath: string, listdir: string -> seq<string>) returns (copies: seq<Copy>)
    ensures copies == GroupCopies(indices, tempPath, listdir)
  {
    var pagesPath := PagesPath(tempPath);
    copies := [];
    for i := 0 to |indices|
      invariant copies == GroupCopies(indices[..i], tempPath, listdir)
    {
      var src := ScaledDir(tempPath, indices[i]);
      var issueCopies := StageIssue(i, src, pagesPath, listdir(src));
      assert indices[..i + 1][..i] == indices[..i];
      copies := copies + issueCopies;
    }
    assert indices[..|indices|] == indices;
  }

  /** The inner loop of the copy step: the pages of the issue at position
      `pos`, copied from `src` in listing order. */
  method StageIssue(pos: nat, src: string, pagesPath: string, names: seq<string>) returns (copies: seq<Copy>)
    ensures copies == IssueCopies(pos, src, pagesPath, names)
  {
    copies := [];
    for j := 0 to |names|
      invariant copies == IssueCopies(pos, src, pagesPath, names[..j])
    {
      var page := names[j];
      assert names[..j + 1][..j] == names[..j];
      copies := copies + [Copy(Join(src, page), Join(pagesPath, StagedName(pos, page)))];
    }
    assert names[..|names|] == names;
  }

  /** The staging directory lists exactly the staged names of a group of at
      most 1000 issues, and no name holds a `/`. */
  predicate WellStaged(indices: seq<nat>, tempPath: string, listdir: string -> seq<string>, staged: seq<string>)
  {
    && |indices| <= 1000
    && multiset(staged) == multiset(Staged(Listings(indices, tempPath, listdir)))
    && forall x :: x in staged ==> '/' !in x
  }

  /** `export_group(indices, temp_path, dst, title, author)`. `listdir(d)` is
      what `os.listdir(d)` returns for an issue directory, and `staged` what
      it returns for the staging directory once the copies are made. When
      the staging directory holds exactly the staged names, there are at most
      1000 issues and no name has a `/`, the pages reach `img2pdf` in the
      intended order. */
  method ExportGroup(indices: seq<nat>, tempPath: string, dst: string, title: Option<string>, author: Option<string>,
                     listdir: string -> seq<string>, staged: seq<string>)
    returns (copies: seq<Copy>, call: Img2pdf)
    ensures copies == GroupCopies(indices, tempPath, listdir)
    ensures call == Img2pdf(dst, OptionalArgs(title, author), SortBy(Map(Quoted(PagesPath(tempPath)), staged), LastComponent))
    ensures WellStaged(indices, tempPath, listdir, staged) ==> call.pages == Map(Quoted(PagesPath(tempPath)), Canonical(Listings(indices, tempPath, listdir)))
  {
    var pagesPath := PagesPath(tempPath);
    copies := StagePages(indices, tempPath, listdir);
    var allPages := Map(Quoted(pagesPath), staged);
    allPages := SortBy(allPages, LastComponent);
    var optionalArgs := OptionalArgs(title, author);
    call := Img2pdf(dst, optionalArgs, allPages);
    if WellStaged(indices, tempPath, listdir, staged) {
      PagesPathEnd(tempPath);
      ExportPageOrder(pagesPath, Listings(indices, tempPath, listdir), staged);
    }
  }

  /** The staging directory's name ends in `pages`. */
  lemma PagesPathEnd(tempPath: string)
    ensures EndsWith(PagesPath(tempPath), "pages")
    ensures |PagesPath(tempPath)| > 0 && PagesPath(tempPath)[|PagesPath(tempPath)| - 1] == 's'
  {
    var pp := PagesPath(tempPath);
    assert pp[|pp| - 5..] == "pages";
  }

  lemma QuoteSplit(dir: string, f: string)
    ensures Quote(dir + "/" + f) == ("\"" + dir) + "/" + Closing(f)
  {
  }

  /** The key of a quoted path in a directory not ending in `/` is the
      name plus the closing quote. */
  lemma QuotedKey(dir: string, f: string)
    requires |dir| > 0 && dir[|dir| - 1] != '/'
    requires '/' !in f
    ensures LastComponent(Quoted(dir)(f)) == Closing(f)
  {
    QuoteSplit(dir, f);
    assert Join(dir, f) == dir + "/" + f;
    assert '/' !in Closing(f);
    LastComponentAfterSlash("\"" + dir, Closing(f));
  }

  lemma ClosingInjective(s: seq<string>)
    ensures KeyInjective(s, Closing)
  {
    forall x, y | x in s && y in s && Closing(x) == Closing(y) ensures x == y {
      assert x == Closing(x)[..|x|] && y == Closing(y)[..|y|];
    }
  }

  /** Giving names of one issue its prefix keeps their order. */
  lemma StagedAtCompatible(pos: nat, names: seq<string>)
    ensures OrderCompatible(StagedAt(pos), names, Closing, Closing)
  {
    forall x, y | x in names && y in names
      ensures Le(Closing(StagedAt(pos)(x)), Closing(StagedAt(pos)(y))) <==> Le(Closing(x), Closing(y))
    {
      var c := Pad(pos, 3) + "_";
      assert Closing(StagedAt(pos)(x)) == c + Closing(x);
      assert Closing(StagedAt(pos)(y)) == c + Closing(y);
      LeCommonPrefix(c, Closing(x), Closing(y));
    }
  }

  /** An issue's block in the intended order is its staged names, sorted. */
  lemma BlockIsSorted(pos: nat, names: seq<string>)
    ensures Map(StagedAt(pos), SortBy(names, Closing)) == SortBy(Map(StagedAt(pos), names), Closing)
    ensures SortedBy(Map(StagedAt(pos), SortBy(names, Closing)), Closing)
    ensures multiset(Map(StagedAt(pos), SortBy(names, Closing))) == multiset(Map(StagedAt(pos), names))
  {
    StagedAtCompatible(pos, names);
    SortByMap(StagedAt(pos), names, Closing, Closing);
    SortBySorted(Map(StagedAt(pos), names), Closing);
  }

  /** The intended order holds exactly the staged names. */
  lemma {:induction false} CanonicalPermutation(listings: seq<seq<string>>)
    ensures multiset(Canonical(listings)) == multiset(Staged(listings))
  {
    if |listings| > 0 {
      var pos := |listings| - 1;
      CanonicalPermutation(listings[..pos]);
      BlockIsSorted(pos, listings[pos]);
    }
  }

  /** Every name staged for position `pos` sorts after `%03d` of `pos`. */
  lemma BlockAfterPrefix(pos: nat, names: seq<string>, y: string)
    requires y in Map(StagedAt(pos), names)
    ensures Le(Pad(pos, 3), Closing(y))
    ensures exists rest :: Closing(y) == Pad(pos, 3) + rest
  {
    var k :| 0 <= k < |names| && Map(StagedAt(pos), names)[k] == y;
    var rest := "_" + Closing(names[k]);
    assert Closing(y) == Pad(pos, 3) + rest;
    LePrefix(Pad(pos, 3), rest);
  }

  /** Every name staged for position `pos` sorts before `%03d` of `pos + 1`. */
  lemma BlockBeforeNext(pos: nat, names: seq<string>, y: string)
    requires pos + 1 < 1000
    requires y in Map(StagedAt(pos), names)
    ensures Lt(Closing(y), Pad(pos + 1, 3))
  {
    BlockAfterPrefix(pos, names, y);
    var rest :| Closing(y) == Pad(pos, 3) + rest;
    assert Pow10(3) == 1000;
    PadOrder(pos, pos + 1, 3);
    PadLength(pos, 3);
    PadLength(pos + 1, 3);
    LtExtend(Pad(pos, 3), Pad(pos + 1, 3), rest, "");
    assert Pad(pos + 1, 3) + "" == Pad(pos + 1, 3);
  }

  /** Below 1000 issues the intended order is ordered by the sort key, and
      all of it sorts before the prefix of the next issue. */
  lemma {:induction false} CanonicalSorted(listings: seq<seq<string>>)
    requires |listings| <= 1000
    ensures SortedBy(Canonical(listings), Closing)
    ensures |listings| < 1000 ==> forall x :: x in Canonical(listings) ==> Lt(Closing(x), Pad(|listings|, 3))
  {
    if |listings| > 0 {
      var pos := |listings| - 1;
      var prev := Canonical(listings[..pos]);
      var block := Map(StagedAt(pos), SortBy(listings[pos], Closing));
      CanonicalSorted(listings[..pos]);
      BlockIsSorted(pos, listings[pos]);
      forall i, j | 0 <= i < |prev| && 0 <= j < |block| ensures Le(Closing(prev[i]), Closing(block[j])) {
        assert prev[i] in prev && block[j] in block;
        BlockAfterPrefix(pos, SortBy(listings[pos], Closing), block[j]);
        LtLeTransitive(Closing(prev[i]), Pad(pos, 3), Closing(block[j]));
      }
      SortedConcat(prev, block, Closing);
      if |listings| < 1000 {
        assert Pow10(3) == 1000;
        PadOrder(pos, pos + 1, 3);
        forall x | x in Canonical(listings) ensures Lt(Closing(x), Pad(|listings|, 3)) {
          if x in prev {
            LtLeTransitive(Closing(x), Pad(pos, 3), Pad(pos + 1, 3));
          } else {
            assert x in block;
            BlockBeforeNext(pos, SortBy(listings[pos], Closing), x);
          }
        }
      }
    }
  }

  /** Sorting quoted paths by their last component is sorting the names by `Closing`. */
  lemma QuotedCompatible(dir: string, staged: seq<string>)
    requires |dir| > 0 && dir[|dir| - 1] != '/'
    requires forall x :: x in staged ==> '/' !in x
    ensures OrderCompatible(Quoted(dir), staged, LastComponent, Closing)
  {
    forall x, y | x in staged && y in staged
      ensures Le(LastComponent(Quoted(dir)(x)), LastComponent(Quoted(dir)(y))) <==> Le(Closing(x), Closing(y))
    {
      QuotedKey(dir, x);
      QuotedKey(dir, y);
    }
  }

  /** The staging prefix makes the basename sort put the pages in the
      intended order, whatever order `os.listdir` lists the staging
      directory in, as long as there are at most 1000 issues. */
  lemma ExportPageOrder(dir: string, listings: seq<seq<string>>, staged: seq<string>)
    requires |dir| > 0 && dir[|dir| - 1] != '/'
    requires |listings| <= 1000
    requires multiset(staged) == multiset(Staged(listings))
    requires forall x :: x in staged ==> '/' !in x
    ensures SortBy(Map(Quoted(dir), staged), LastComponent) == Map(Quoted(dir), Canonical(listings))
  {
    QuotedCompatible(dir, staged);
    SortByMap(Quoted(dir), staged, LastComponent, Closing);
    CanonicalSorted(listings);
    CanonicalPermutation(listings);
    ClosingInjective(Canonical(listings));
    SortByIsSorted(Canonical(listings), staged, Closing);
  }

  function Target(c: Copy): string
  {
    c.target
  }

  function Source(c: Copy): string
  {
    c.source
  }

  function Joined(dir: string): string -> string
  {
    f => Join(dir, f)
  }

  /** An issue's pages are copied from its own directory under their own
      names, to the staging directory under the names staged for its position. */
  lemma {:induction false} IssueCopiesPaths(pos: nat, src: string, pagesPath: string, names: seq<string>)
    ensures Map(Source, IssueCopies(pos, src, pagesPath, names)) == Map(Joined(src), names)
    ensures Map(Target, IssueCopies(pos, src, pagesPath, names)) == Map(Joined(pagesPath), Map(StagedAt(pos), names))
  {
    if |names| > 0 {
      var names' := names[..|names| - 1];
      var page := names[|names| - 1];
      IssueCopiesPaths(pos, src, pagesPath, names');
      var c := [Copy(Join(src, page), Join(pagesPath, StagedName(pos, page)))];
      MapConcat(Source, IssueCopies(pos, src, pagesPath, names'), c);
      MapConcat(Target, IssueCopies(pos, src, pagesPath, names'), c);
      assert names == names' + [page];
      MapConcat(Joined(src), names', [page]);
      MapConcat(StagedAt(pos), names', [page]);
      MapConcat(Joined(pagesPath), Map(StagedAt(pos), names'), Map(StagedAt(pos), [page]));
      var staged := StagedName(pos, page);
      MapSingleton(Source, c[0]);
      MapSingleton(Target, c[0]);
      MapSingleton(Joined(src), page);
      MapSingleton(StagedAt(pos), page);
      MapSingleton(Joined(pagesPath), staged);
      assert Joined(src)(page) == Join(src, page);
      assert StagedAt(pos)(page) == staged;
      assert Joined(pagesPath)(staged) == Join(pagesPath, staged);
    }
  }

  /** The group's copies land on exactly the staged names, in staging order:
      the prefix is the issue's position in the group, shared by all its pages. */
  lemma {:induction false} GroupCopiesTargets(indices: seq<nat>, tempPath: string, listdir: string -> seq<string>)
    ensures Map(Target, GroupCopies(indices, tempPath, listdir))
              == Map(Joined(PagesPath(tempPath)), Staged(Listings(indices, tempPath, listdir)))
  {
    if |indices| > 0 {
      var pos := |indices| - 1;
      var src := ScaledDir(tempPath, indices[pos]);
      var pp := PagesPath(tempPath);
      var ls := Listings(indices, tempPath, listdir);
      GroupCopiesTargets(indices[..pos], tempPath, listdir);
      assert ls[..pos] == Listings(indices[..pos], tempPath, listdir);
      assert ls[pos] == listdir(src);
      IssueCopiesPaths(pos, src, pp, listdir(src));
      MapConcat(Target, GroupCopies(indices[..pos], tempPath, listdir), IssueCopies(pos, src, pp, listdir(src)));
      MapConcat(Joined(pp), Staged(ls[..pos]), Map(StagedAt(pos), ls[pos]));
    }
  }

  /** The intended order does not depend on the order each issue's
      directory is listed in. */
  lemma {:induction false} CanonicalOrderFree(a: seq<seq<string>>, b: seq<seq<string>>)
    requires |a| == |b|
    requires forall p :: 0 <= p < |a| ==> multiset(a[p]) == multiset(b[p])
    ensures Canonical(a) == Canonical(b)
  {
    if |a| > 0 {
      var pos := |a| - 1;
      CanonicalOrderFree(a[..pos], b[..pos]);
      ClosingInjective(a[pos]);
      SortByOrderIndependent(a[pos], b[pos], Closing);
    }
  }

  /** Pages that `scale_page` wrote, `page_000.jpg` up to at most
      `page_999.jpg`, in any listing order, sort back to page order. */
  lemma ScaledListingOrder(listing: seq<string>, k: nat)
    requires k <= 1000
    requires multiset(listing) == multiset(Tabulate(Scale.PageName, k))
    ensures SortBy(listing, Closing) == Tabulate(Scale.PageName, k)
  {
    var names := Tabulate(Scale.PageName, k);
    TabulateIndex(Scale.PageName, k);
    forall i, j | 0 <= i < j < |names| ensures Le(Closing(names[i]), Closing(names[j])) {
      Scale.PageNameOrder(i, j);
      assert Pow10(3) == 1000;
      PadLength(i, 3);
      PadLength(j, 3);
      assert |Scale.PageName(i)| == |Scale.PageName(j)|;
      LtExtend(Scale.PageName(i), Scale.PageName(j), "\"", "\"");
    }
    ClosingInjective(names);
    SortByIsSorted(names, listing, Closing);
  }

  /** `%03d` of the first two positions. */
  lemma PrefixExamples()
    ensures Pad(0, 3) == "000" && Pad(1, 3) == "001"
  {
    assert Pad(0, 1) == "0" && Pad(1, 1) == "1";
    assert Pad(0, 2) == "00" && Pad(0, 2) == Pad(0, 1) + "0";
    assert Pad(0, 3) == Pad(0, 2) + "0";
    assert Pad(1, 2) == Pad(0, 1) + "1";
    assert Pad(1, 3) == Pad(0, 2) + "1";
  }

  /** Two issues of three and two pages: the prefixes are 000, 000, 000, 001,
      001, counting issues and not pages. */
  lemma StagedExample(ls: seq<seq<string>>, a: string, b: string, c: string, d: string, e: string)
    requires ls == [[a, b, c], [d, e]]
    ensures Staged(ls) == ["000_" + a, "000_" + b, "000_" + c, "001_" + d, "001_" + e]
  {
    PrefixExamples();
    assert forall x :: StagedName(0, x) == "000_" + x && StagedName(1, x) == "001_" + x;
    assert ls[..1][..0] == [];
    var first := Map(StagedAt(0), [a, b, c]);
    var second := Map(StagedAt(1), [d, e]);
    assert first == ["000_" + a, "000_" + b, "000_" + c];
    assert second == ["001_" + d, "001_" + e];
    assert Staged(ls[..1]) == first;
    assert Staged(ls) == first + second;
  }
}

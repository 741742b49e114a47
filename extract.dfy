/** Archive discovery and numbering in `extract_zips` (comicbatch.py:52-67). */
module Extract {
  import opened Strings
  import opened Seqs
  import opened Sorting

  /** `s.lower().endswith('cbz')`. */
  predicate IsArchive(name: string)
  {
    EndsWith(Lower(name), "cbz")
  }

  /** The directory an archive with index `i` is extracted into, `'tmp/src/%04d' % i`. */
  function SourceDir(directory: string, i: nat): string
  {
    Join(directory, "tmp/src/" + Pad(i, 4))
  }

  /** The archives of a listing in index order: filtered, then sorted by lower-cased name. */
  function Discovered(listing: seq<string>): seq<string>
  {
    SortBy(Filter(IsArchive, listing), Lower)
  }

  /** One `zipfile.ZipFile(...).extractall(path=...)`, into a directory
      freshly made by `os.mkdir`. */
  datatype Unzip = Unzip(archive: string, dest: string)

  /** The extractions of `archives`, in order: the `k`-th archive goes to
      the directory with index `k`. */
  function Unzips(directory: string, archives: seq<string>): seq<Unzip>
  {
    if |archives| == 0 then []
    else
      var n := |archives| - 1;
      Unzips(directory, archives[..n]) + [Unzip(Join(directory, archives[n]), SourceDir(directory, n))]
  }

  /** Extraction `k` opens the `k`-th archive and writes into `tmp/src/%04d` of `k`. */
  lemma {:induction false} UnzipsIndex(directory: string, archives: seq<string>)
    ensures |Unzips(directory, archives)| == |archives|
    ensures forall k :: 0 <= k < |archives| ==>
      Unzips(directory, archives)[k] == Unzip(Join(directory, archives[k]), SourceDir(directory, k))
  {
    if |archives| > 0 {
      UnzipsIndex(directory, archives[..|archives| - 1]);
    }
  }

  /** `listing` is what `os.listdir(directory)` returned. Returns the archive
      count and the extractions in the order the loop performs them. */
  method ExtractZips(directory: string, listing: seq<string>) returns (count: nat, unzips: seq<Unzip>)
    ensures count == |Filter(IsArchive, listing)|
    ensures unzips == Unzips(directory, Discovered(listing))
  {
    var topLevel := Discovered(listing);
    var i := 0;
    unzips := [];
    while i < |topLevel|
      invariant 0 <= i <= |topLevel|
      invariant unzips == Unzips(directory, topLevel[..i])
    {
      var f := topLevel[i];
      assert topLevel[..i + 1][..i] == topLevel[..i];
      unzips := unzips + [Unzip(Join(directory, f), SourceDir(directory, i))];
      i := i + 1;
    }
    assert topLevel[..i] == topLevel;
    count := i;
  }

  /** Index order is lower-cased name order, over exactly the archives of the listing. */
  lemma DiscoveredOrdered(listing: seq<string>)
    ensures |Discovered(listing)| == |Filter(IsArchive, listing)|
    ensures SortedBy(Discovered(listing), Lower)
    ensures multiset(Discovered(listing)) == multiset(Filter(IsArchive, listing))
    ensures forall x :: x in Discovered(listing) <==> x in listing && IsArchive(x)
  {
    SortBySorted(Filter(IsArchive, listing), Lower);
    FilterContents(IsArchive, listing);
    forall x ensures x in Discovered(listing) <==> x in listing && IsArchive(x) {
      assert x in Discovered(listing) <==> x in multiset(Discovered(listing));
      assert x in Filter(IsArchive, listing) <==> x in multiset(Filter(IsArchive, listing));
    }
  }

  /** Whatever order `os.listdir` returns, the indices are the same, as long
      as no two archive names differ only in case. */
  lemma DiscoveryOrderFree(a: seq<string>, b: seq<string>)
    requires multiset(a) == multiset(b)
    requires KeyInjective(Filter(IsArchive, a), Lower)
    ensures Discovered(a) == Discovered(b)
  {
    FilterPermutation(IsArchive, a, b);
    SortByOrderIndependent(Filter(IsArchive, a), Filter(IsArchive, b), Lower);
  }

  /** Every archive gets a directory of its own. */
  lemma SourceDirsDistinct(directory: string, i: nat, j: nat)
    requires i != j
    ensures SourceDir(directory, i) != SourceDir(directory, j)
  {
    if SourceDir(directory, i) == SourceDir(directory, j) {
      JoinInjective(directory, "tmp/src/" + Pad(i, 4), "tmp/src/" + Pad(j, 4));
      assert Pad(i, 4) == ("tmp/src/" + Pad(i, 4))[8..];
      assert Pad(j, 4) == ("tmp/src/" + Pad(j, 4))[8..];
      PadInjective(i, j, 4);
    }
  }
}

/** `dir_size` (comicbatch.py:97-103): the total size of the files under a
    directory, summed over what `os.walk` yields. */
module Sizes {
  import opened Seqs

  /** `walk[d]` holds the sizes (`os.path.getsize`) of the files of the
      `d`-th directory `os.walk` yields, in the order it lists them. */
  method DirSize(walk: seq<seq<nat>>) returns (total: nat)
    ensures total == Sum(Flatten(walk))
  {
    total := 0;
    for d := 0 to |walk|
      invariant total == Sum(Flatten(walk[..d]))
    {
      var files := walk[d];
      for f := 0 to |files|
        invariant total == Sum(Flatten(walk[..d])) + Sum(files[..f])
      {
        assert files[..f + 1] == files[..f] + [files[f]];
        SumConcat(files[..f], [files[f]]);
        total := total + files[f];
      }
      assert files[..|files|] == files;
      assert walk[..d + 1] == walk[..d] + [files];
      FlattenAppend(walk[..d], files);
      SumConcat(Flatten(walk[..d]), files);
    }
    assert walk[..|walk|] == walk;
  }

  /** The total does not depend on the order in which the walk visits
      directories and files. */
  lemma DirSizeOrderFree(a: seq<seq<nat>>, b: seq<seq<nat>>)
    requires multiset(Flatten(a)) == multiset(Flatten(b))
    ensures Sum(Flatten(a)) == Sum(Flatten(b))
  {
    SumPermutation(Flatten(a), Flatten(b));
  }
}

/** The export loop of the script (comicbatch.py:200-209): one output file
    per group, numbered from 1. */
module Batch {
  import opened Strings
  import opened Seqs
  import Export

  /** The arguments of one `export_group(group, temp_path, dst, title, author)` call. */
  datatype ExportRequest = ExportRequest(indices: seq<nat>, output: string, title: Option<string>, author: Option<string>)

  /** `os.path.join(directory, '%s_%03d.pdf' % (prefix, k))`. The prefix is
      the user's `--output` option: when it is an absolute path the
      directory is dropped. */
  function OutputName(directory: string, prefix: string, k: nat): string
  {
    PathJoin(directory, prefix + "_" + Pad(k, 3) + ".pdf")
  }

  /** `'%s %d' % (title, k) if title else None`. */
  function GroupTitle(title: Option<string>, k: nat): Option<string>
  {
    if Export.Truthy(title) then Some(title.value + " " + Pad(k, 0)) else None
  }

  /** The export loop over `groups`, with the `--output` prefix, `--title`
      and `--author` options. */
  method ExportAll(groups: seq<seq<nat>>, directory: string, prefix: string, title: Option<string>, author: Option<string>)
    returns (requests: seq<ExportRequest>)
    ensures |requests| == |groups|
    ensures forall k :: 0 <= k < |groups| ==>
      requests[k] == ExportRequest(groups[k], OutputName(directory, prefix, k + 1), GroupTitle(title, k + 1), author)
  {
    requests := [];
    var i := 0;
    for g := 0 to |groups|
      invariant i == g == |requests|
      invariant forall k :: 0 <= k < g ==>
        requests[k] == ExportRequest(groups[k], OutputName(directory, prefix, k + 1), GroupTitle(title, k + 1), author)
    {
      var group := groups[g];
      var t := if Export.Truthy(title) then Some(title.value + " " + Pad(i + 1, 0)) else None;
      requests := requests + [ExportRequest(group, PathJoin(directory, prefix + "_" + Pad(i + 1, 3) + ".pdf"), t, author)];
      i := i + 1;
    }
  }

  /** Different ordinals give different output files, so no export
      overwrites another, whether the prefix is relative or absolute. */
  lemma OutputNamesDistinct(directory: string, prefix: string, j: nat, k: nat)
    requires j != k
    ensures OutputName(directory, prefix, j) != OutputName(directory, prefix, k)
  {
    var c := prefix + "_";
    var x, y := c + Pad(j, 3) + ".pdf", c + Pad(k, 3) + ".pdf";
    assert OutputName(directory, prefix, j) == PathJoin(directory, x);
    assert OutputName(directory, prefix, k) == PathJoin(directory, y);
    if PathJoin(directory, x) == PathJoin(directory, y) {
      assert x[0] == y[0];
      if !(|x| > 0 && x[0] == '/') {
        JoinInjective(directory, x, y);
      }
      assert x == y;
      assert |Pad(j, 3)| == |Pad(k, 3)|;
      assert x[|c|..|x| - 4] == Pad(j, 3);
      assert y[|c|..|y| - 4] == Pad(k, 3);
      PadInjective(j, k, 3);
    }
  }

  /** Below 1000 groups the output files sort in group order. */
  lemma OutputNameOrder(directory: string, prefix: string, j: nat, k: nat)
    requires j < k < 1000
    ensures Lt(OutputName(directory, prefix, j), OutputName(directory, prefix, k))
  {
    assert Pow10(3) == 1000;
    PadOrder(j, k, 3);
    PadLength(j, 3);
    PadLength(k, 3);
    LtExtend(Pad(j, 3), Pad(k, 3), ".pdf", ".pdf");
    var c := prefix + "_";
    var x, y := Pad(j, 3) + ".pdf", Pad(k, 3) + ".pdf";
    LeCommonPrefix(c, x, y);
    assert (c + x)[|c|..] == x && (c + y)[|c|..] == y;
    assert c + Pad(j, 3) + ".pdf" == c + x && c + Pad(k, 3) + ".pdf" == c + y;
    if !((c + x)[0] == '/') {
      JoinOrder(directory, c + x, c + y);
    }
  }

  /** Joining onto the same directory keeps the order of names. */
  lemma JoinOrder(dir: string, x: string, y: string)
    requires Lt(x, y)
    ensures Lt(Join(dir, x), Join(dir, y))
  {
    var p := if |dir| == 0 then "" else if dir[|dir| - 1] == '/' then dir else dir + "/";
    assert Join(dir, x) == p + x && Join(dir, y) == p + y;
    LeCommonPrefix(p, x, y);
    assert (p + x)[|p|..] == x && (p + y)[|p|..] == y;
  }

  /** The title is given exactly when `--title` is truthy, and it is the
      title, a space and the ordinal written in decimal. */
  lemma GroupTitleShape(title: Option<string>, k: nat)
    ensures GroupTitle(title, k).Some? <==> Export.Truthy(title)
    ensures GroupTitle(title, k).Some? ==>
      exists digits :: GroupTitle(title, k).value == title.value + " " + digits && AllDigits(digits) && Value(digits) == k
  {
    PadValue(k, 0);
    if Export.Truthy(title) {
      assert GroupTitle(title, k).value == title.value + " " + Pad(k, 0);
    }
  }
}

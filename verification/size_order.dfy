/** The longest-first ordering `runHeadless` imposes on the bound files
    before handing them to the linter. */
module SizeOrder {
  import opened RuleTypes

  /** `len(f.Text())`: the length of the file's text in bytes. */
  function Size(f: SourceFile): nat {
    |f.text|
  }

  /** The comparator given to `slices.SortFunc`: negative when `a` must come
      first, that is when `a` is the longer file. */
  function CompareBySize(a: SourceFile, b: SourceFile): int {
    Size(b) - Size(a)
  }

  /** Sizes never increase along the sequence. */
  predicate SizeDescending(fs: seq<SourceFile>) {
    forall i, j | 0 <= i < j < |fs| :: Size(fs[i]) >= Size(fs[j])
  }

  /** Places `f` before the first file it does not sort after. */
  function Insert(f: SourceFile, fs: seq<SourceFile>): (r: seq<SourceFile>)
    requires SizeDescending(fs)
    ensures SizeDescending(r)
    ensures multiset(r) == multiset(fs) + multiset{f}
  {
    if |fs| == 0 || CompareBySize(f, fs[0]) <= 0 then [f] + fs
    else
      var tail := Insert(f, fs[1..]);
      assert fs == [fs[0]] + fs[1..];
      forall k | 0 <= k < |tail|
        ensures Size(tail[k]) <= Size(fs[0])
      {
        assert tail[k] in multiset(tail);
        if tail[k] != f {
          assert tail[k] in multiset(fs[1..]);
          var m :| 0 <= m < |fs[1..]| && fs[1..][m] == tail[k];
          assert fs[m + 1] == tail[k];
        }
      }
      [fs[0]] + tail
  }

  /** `slices.SortFunc(files, CompareBySize)`: the same files, longest first. */
  function SortBySize(fs: seq<SourceFile>): (r: seq<SourceFile>)
    ensures SizeDescending(r)
    ensures multiset(r) == multiset(fs)
  {
    if |fs| == 0 then []
    else
      assert fs == [fs[0]] + fs[1..];
      Insert(fs[0], SortBySize(fs[1..]))
  }
}

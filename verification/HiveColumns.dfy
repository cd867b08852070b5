/** Merging file columns and hive partition columns by their position in the reader's schema. */
module HiveColumns {
  import opened Options

  /** `out` contains `a` and `b`, each in its own order, and nothing else. */
  ghost predicate Interleaves<C(!new)>(a: seq<C>, b: seq<C>, out: seq<C>) {
    if out == [] then a == [] && b == []
    else
      var k := |out| - 1;
      || (a != [] && a[|a| - 1] == out[k] && Interleaves(a[..|a| - 1], b, out[..k]))
      || (b != [] && b[|b| - 1] == out[k] && Interleaves(a, b[..|b| - 1], out[..k]))
  }

  lemma TakeLeft<C(!new)>(a: seq<C>, b: seq<C>, out: seq<C>, x: C)
    requires Interleaves(a, b, out)
    ensures Interleaves(a + [x], b, out + [x])
  {
    assert (a + [x])[..|a|] == a && (out + [x])[..|out|] == out;
  }

  lemma TakeRight<C(!new)>(a: seq<C>, b: seq<C>, out: seq<C>, x: C)
    requires Interleaves(a, b, out)
    ensures Interleaves(a, b + [x], out + [x])
  {
    assert (b + [x])[..|b|] == b && (out + [x])[..|out|] == out;
  }

  lemma {:induction false} TakeAllLeft<C(!new)>(a: seq<C>, b: seq<C>, out: seq<C>, xs: seq<C>)
    requires Interleaves(a, b, out)
    ensures Interleaves(a + xs, b, out + xs)
  {
    if xs == [] {
      assert a + xs == a && out + xs == out;
    } else {
      var k := |xs| - 1;
      TakeAllLeft(a, b, out, xs[..k]);
      TakeLeft(a + xs[..k], b, out + xs[..k], xs[k]);
      assert xs == xs[..k] + [xs[k]];
      assert a + xs[..k] + [xs[k]] == a + xs && out + xs[..k] + [xs[k]] == out + xs;
    }
  }

  lemma {:induction false} TakeAllRight<C(!new)>(a: seq<C>, b: seq<C>, out: seq<C>, xs: seq<C>)
    requires Interleaves(a, b, out)
    ensures Interleaves(a, b + xs, out + xs)
  {
    if xs == [] {
      assert b + xs == b && out + xs == out;
    } else {
      var k := |xs| - 1;
      TakeAllRight(a, b, out, xs[..k]);
      TakeRight(a, b + xs[..k], out + xs[..k], xs[k]);
      assert xs == xs[..k] + [xs[k]];
      assert b + xs[..k] + [xs[k]] == b + xs && out + xs[..k] + [xs[k]] == out + xs;
    }
  }

  /** An interleaving loses and invents nothing. */
  lemma {:induction false} InterleavesKeeps<C(!new)>(a: seq<C>, b: seq<C>, out: seq<C>)
    requires Interleaves(a, b, out)
    ensures multiset(out) == multiset(a) + multiset(b)
  {
    if out != [] {
      var k := |out| - 1;
      BagSnoc(out);
      if a != [] && a[|a| - 1] == out[k] && Interleaves(a[..|a| - 1], b, out[..k]) {
        InterleavesKeeps(a[..|a| - 1], b, out[..k]);
        hide Interleaves;
        BagSnoc(a);
      } else {
        InterleavesKeeps(a, b[..|b| - 1], out[..k]);
        hide Interleaves;
        BagSnoc(b);
      }
    }
  }

  lemma BagSnoc<C(!new)>(s: seq<C>)
    requires s != []
    ensures multiset(s) == multiset(s[..|s| - 1]) + multiset{s[|s| - 1]}
  {
    assert s == s[..|s| - 1] + [s[|s| - 1]];
  }

  /** By schema position; columns outside the schema come last, in any order. */
  predicate NotAfter<C>(position: C -> Option<nat>, x: C, y: C) {
    position(y).None? || (position(x).Some? && position(x).value <= position(y).value)
  }

  ghost predicate Sorted<C>(position: C -> Option<nat>, cs: seq<C>) {
    forall i, j :: 0 <= i < j < |cs| ==> NotAfter(position, cs[i], cs[j])
  }

  ghost predicate AllNotAfter<C>(position: C -> Option<nat>, xs: seq<C>, ys: seq<C>) {
    forall i, j :: 0 <= i < |xs| && 0 <= j < |ys| ==> NotAfter(position, xs[i], ys[j])
  }

  lemma SortedConcat<C>(position: C -> Option<nat>, xs: seq<C>, ys: seq<C>)
    requires Sorted(position, xs) && Sorted(position, ys) && AllNotAfter(position, xs, ys)
    ensures Sorted(position, xs + ys)
  {
  }

  /** The ordering promise: file columns all in the schema and in its order, hive columns in its order. */
  ghost predicate InOrder<C>(position: C -> Option<nat>, file: seq<C>, hive: seq<C>) {
    && Sorted(position, file)
    && Sorted(position, hive)
    && forall i :: 0 <= i < |file| ==> position(file[i]).Some?
  }

  datatype Outcome<C> = Merged(columns: seq<C>) | Panic

  /** What is left of the inputs may follow what was put out. */
  ghost predicate Ahead<C>(position: C -> Option<nat>, out: seq<C>, file: seq<C>, hive: seq<C>) {
    && Sorted(position, out)
    && AllNotAfter(position, out, file)
    && AllNotAfter(position, out, hive)
    && InOrder(position, file, hive)
  }

  /** Putting out the smaller head keeps everything put out ahead of what is left. */
  lemma PutOut<C>(position: C -> Option<nat>, out: seq<C>, file: seq<C>, hive: seq<C>, left: bool)
    requires Ahead(position, out, file, hive) && file != [] && hive != []
    requires position(file[0]).Some? && position(hive[0]).Some?
    requires left == (position(file[0]).value < position(hive[0]).value)
    ensures left ==> Ahead(position, out + [file[0]], file[1..], hive)
    ensures !left ==> Ahead(position, out + [hive[0]], file, hive[1..])
  {
    var x := if left then file[0] else hive[0];
    HeadFirst(position, file);
    HeadFirst(position, hive);
    SortedConcat(position, out, [x]);
  }

  lemma HeadFirst<C>(position: C -> Option<nat>, cs: seq<C>)
    requires Sorted(position, cs) && cs != [] && position(cs[0]).Some?
    ensures forall j :: 0 <= j < |cs| ==> NotAfter(position, cs[0], cs[j])
    ensures Sorted(position, cs[1..])
  {
  }

  /** Once the merge loop stops, the rest of the file and then the rest of the hive columns follow. */
  lemma Finish<C>(position: C -> Option<nat>, out: seq<C>, file: seq<C>, hive: seq<C>)
    requires Ahead(position, out, file, hive)
    requires file == [] || hive == [] || position(hive[0]).None?
    ensures Sorted(position, out + file + hive)
  {
    assert AllNotAfter(position, file, hive);
    SortedConcat(position, out, file);
    SortedConcat(position, out + file, hive);
  }

  /** `materialize_hive_partitions`, on the columns of the frame. */
  method Materialize<C(!new)>(file: seq<C>, partitions: Option<seq<C>>, position: C -> Option<nat>)
    returns (r: Outcome<C>)
    ensures partitions.None? || partitions.value == [] ==> r == Merged(file)
    ensures partitions.Some? ==>
      var hive := partitions.value;
      && (r.Panic? <==> hive != [] && file != [] && position(hive[0]).Some? && position(file[0]).None?)
      && (hive != [] && (position(hive[0]).None? || file == []) ==> r == Merged(file + hive))
      && (r.Merged? && hive != [] && file != [] && position(hive[0]).Some? ==> MergedInto(position, file, hive, r.columns))
      && (r.Merged? ==> Interleaves(file, hive, r.columns))
      && (r.Merged? && InOrder(position, file, hive) ==> Sorted(position, r.columns))
  {
    EmptyInterleaving<C>();
    TakeAllLeft([], [], [], file);
    assert [] + file == file;
    if partitions.None? || partitions.value == [] {
      return Merged(file);
    }
    var hive := partitions.value;
    if position(hive[0]).None? || file == [] {
      TakeAllRight(file, [], file, hive);
      assert [] + hive == hive;
      if InOrder(position, file, hive) {
        Finish(position, [], file, hive);
        assert [] + file + hive == file + hive;
      }
      return Merged(file + hive);
    }
    if position(file[0]).None? {
      return Panic;
    }
    var columns := MergeLoop(file, hive, position);
    r := Merged(columns);
  }

  lemma EmptyInterleaving<C(!new)>()
    ensures Interleaves<C>([], [], [])
  {
  }

  /**
   * `out` holds `i` file and `j` hive columns, each put out after a comparison with the head of the other
   * side, both in the schema: a file column only if it comes strictly before, a hive column otherwise.
   */
  ghost predicate Chosen<C(!new)>(position: C -> Option<nat>, file: seq<C>, hive: seq<C>, i: nat, j: nat, out: seq<C>)
    requires i <= |file| && j <= |hive|
    decreases |out|
  {
    if out == [] then i == 0 && j == 0
    else
      var k := |out| - 1;
      || (&& i > 0 && out[k] == file[i - 1] && j < |hive| && Before(position, file[i - 1], hive[j])
          && Chosen(position, file, hive, i - 1, j, out[..k]))
      || (&& j > 0 && out[k] == hive[j - 1] && i < |file| && NotBefore(position, hive[j - 1], file[i])
          && Chosen(position, file, hive, i, j - 1, out[..k]))
  }

  predicate Before<C>(position: C -> Option<nat>, x: C, y: C) {
    position(x).Some? && position(y).Some? && position(x).value < position(y).value
  }

  predicate NotBefore<C>(position: C -> Option<nat>, x: C, y: C) {
    position(x).Some? && position(y).Some? && position(x).value <= position(y).value
  }

  /**
   * The whole merge: choices until one side runs out or leaves the schema, then the rest of the file columns,
   * then the rest of the hive columns.
   */
  ghost predicate MergedInto<C(!new)>(position: C -> Option<nat>, file: seq<C>, hive: seq<C>, out: seq<C>) {
    exists i: nat, j: nat, chosen: seq<C> ::
      && i <= |file| && j <= |hive| && Chosen(position, file, hive, i, j, chosen) && Halted(position, file, hive, i, j)
      && out == chosen + file[i..] + hive[j..]
  }

  /** The choices so far are determined by their number. */
  lemma {:induction false} ChoicesAgree<C(!new)>(position: C -> Option<nat>, file: seq<C>, hive: seq<C>,
                                                 i: nat, j: nat, out: seq<C>, i': nat, j': nat, out': seq<C>)
    requires i <= |file| && j <= |hive| && Chosen(position, file, hive, i, j, out)
    requires i' <= |file| && j' <= |hive| && Chosen(position, file, hive, i', j', out')
    requires |out| == |out'|
    ensures i == i' && j == j' && out == out'
    decreases |out|
  {
    if out != [] {
      var k := |out| - 1;
      assert out == out[..k] + [out[k]] && out' == out'[..k] + [out'[k]];
      var a, b := Previous(position, file, hive, i, j, out);
      var a', b' := Previous(position, file, hive, i', j', out');
      hide Chosen;
      ChoicesAgree(position, file, hive, a, b, out[..k], a', b', out'[..k]);
    }
  }

  /** The state before the last choice, which determines the choice. */
  lemma Previous<C(!new)>(position: C -> Option<nat>, file: seq<C>, hive: seq<C>, i: nat, j: nat, out: seq<C>)
    returns (a: nat, b: nat)
    requires i <= |file| && j <= |hive| && Chosen(position, file, hive, i, j, out) && out != []
    ensures a < |file| && b < |hive| && position(file[a]).Some? && position(hive[b]).Some?
    ensures Chosen(position, file, hive, a, b, out[..|out| - 1])
    ensures if position(file[a]).value < position(hive[b]).value
            then i == a + 1 && j == b && out[|out| - 1] == file[a]
            else i == a && j == b + 1 && out[|out| - 1] == hive[b]
  {
    var k := |out| - 1;
    if i > 0 && out[k] == file[i - 1] && j < |hive| && Before(position, file[i - 1], hive[j])
       && Chosen(position, file, hive, i - 1, j, out[..k]) {
      a, b := i - 1, j;
    } else {
      a, b := i, j - 1;
    }
  }

  ghost predicate Halted<C>(position: C -> Option<nat>, file: seq<C>, hive: seq<C>, i: nat, j: nat)
    requires i <= |file| && j <= |hive|
  {
    i == |file| || j == |hive| || position(file[i]).None? || position(hive[j]).None?
  }

  /** No choices are possible once a side has run out or left the schema. */
  lemma {:induction false} HaltsOnce<C(!new)>(position: C -> Option<nat>, file: seq<C>, hive: seq<C>,
                                              i: nat, j: nat, out: seq<C>, i': nat, j': nat, out': seq<C>)
    requires i <= |file| && j <= |hive| && Chosen(position, file, hive, i, j, out) && Halted(position, file, hive, i, j)
    requires i' <= |file| && j' <= |hive| && Chosen(position, file, hive, i', j', out')
    ensures |out'| <= |out|
    decreases |out'|
  {
    if |out'| > 0 {
      var a, b := Previous(position, file, hive, i', j', out');
      var before := out'[..|out'| - 1];
      hide Chosen;
      HaltsOnce(position, file, hive, i, j, out, a, b, before);
      if |before| == |out| {
        ChoicesAgree(position, file, hive, i, j, out, a, b, before);
      }
    }
  }

  /** There is only one merge of given columns. */
  lemma MergeUnique<C(!new)>(position: C -> Option<nat>, file: seq<C>, hive: seq<C>, out: seq<C>, out': seq<C>)
    requires MergedInto(position, file, hive, out) && MergedInto(position, file, hive, out')
    ensures out == out'
  {
    hide Chosen;
    var i: nat, j: nat, chosen: seq<C> :|
      && i <= |file| && j <= |hive| && Chosen(position, file, hive, i, j, chosen) && Halted(position, file, hive, i, j)
      && out == chosen + file[i..] + hive[j..];
    var i': nat, j': nat, chosen': seq<C> :|
      && i' <= |file| && j' <= |hive| && Chosen(position, file, hive, i', j', chosen') && Halted(position, file, hive, i', j')
      && out' == chosen' + file[i'..] + hive[j'..];
    HaltsOnce(position, file, hive, i, j, chosen, i', j', chosen');
    HaltsOnce(position, file, hive, i', j', chosen', i, j, chosen);
    ChoicesAgree(position, file, hive, i, j, chosen, i', j', chosen');
  }

  /** After taking `i` file and `j` hive columns, `out` interleaves them and is ahead of the rest. */
  ghost predicate Progress<C(!new)>(position: C -> Option<nat>, file: seq<C>, hive: seq<C>, i: nat, j: nat, out: seq<C>) {
    && i <= |file| && j <= |hive|
    && Chosen(position, file, hive, i, j, out)
    && Interleaves(file[..i], hive[..j], out)
    && (InOrder(position, file, hive) ==> Ahead(position, out, file[i..], hive[j..]))
  }

  lemma Advance<C(!new)>(position: C -> Option<nat>, file: seq<C>, hive: seq<C>, i: nat, j: nat, out: seq<C>)
    requires Progress(position, file, hive, i, j, out) && i < |file| && j < |hive|
    requires position(file[i]).Some? && position(hive[j]).Some?
    ensures if position(file[i]).value < position(hive[j]).value
            then Progress(position, file, hive, i + 1, j, out + [file[i]])
            else Progress(position, file, hive, i, j + 1, out + [hive[j]])
  {
    hide Interleaves;
    var left := position(file[i]).value < position(hive[j]).value;
    if InOrder(position, file, hive) {
      PutOut(position, out, file[i..], hive[j..], left);
      assert file[i..][1..] == file[i + 1..] && hive[j..][1..] == hive[j + 1..];
    }
    hide Ahead, InOrder;
    if left {
      TakeLeft(file[..i], hive[..j], out, file[i]);
      assert file[..i] + [file[i]] == file[..i + 1];
      assert (out + [file[i]])[..|out|] == out;
    } else {
      TakeRight(file[..i], hive[..j], out, hive[j]);
      assert hive[..j] + [hive[j]] == hive[..j + 1];
      assert (out + [hive[j]])[..|out|] == out;
    }
  }

  lemma MergeEnds<C(!new)>(position: C -> Option<nat>, file: seq<C>, hive: seq<C>, i: nat, j: nat, out: seq<C>)
    requires i <= |file| && j <= |hive| && Chosen(position, file, hive, i, j, out)
    requires i == |file| || j == |hive| || position(hive[j]).None? || position(file[i]).None?
    ensures MergedInto(position, file, hive, out + file[i..] + hive[j..])
  {
    hide Chosen;
    assert Halted(position, file, hive, i, j);
  }

  lemma RestInSchema<C>(position: C -> Option<nat>, file: seq<C>, hive: seq<C>, i: nat)
    requires InOrder(position, file, hive) && i <= |file|
    ensures i < |file| ==> position(file[i]).Some?
  {
  }

  lemma Complete<C(!new)>(position: C -> Option<nat>, file: seq<C>, hive: seq<C>, i: nat, j: nat, out: seq<C>)
    requires Progress(position, file, hive, i, j, out)
    requires i == |file| || j == |hive| || position(hive[j]).None? || position(file[i]).None?
    ensures Interleaves(file, hive, out + file[i..] + hive[j..])
    ensures InOrder(position, file, hive) ==> Sorted(position, out + file[i..] + hive[j..])
    ensures MergedInto(position, file, hive, out + file[i..] + hive[j..])
  {
    hide Interleaves, Chosen, Ahead, InOrder, Sorted, MergedInto;
    MergeEnds(position, file, hive, i, j, out);
    RestInterleaves(file, hive, i, j, out);
    if InOrder(position, file, hive) {
      RestSorted(position, file, hive, i, j, out);
    }
  }

  lemma RestInterleaves<C(!new)>(file: seq<C>, hive: seq<C>, i: nat, j: nat, out: seq<C>)
    requires i <= |file| && j <= |hive| && Interleaves(file[..i], hive[..j], out)
    ensures Interleaves(file, hive, out + file[i..] + hive[j..])
  {
    hide Interleaves;
    TakeAllLeft(file[..i], hive[..j], out, file[i..]);
    assert file[..i] + file[i..] == file && hive[..j] + hive[j..] == hive;
    TakeAllRight(file, hive[..j], out + file[i..], hive[j..]);
  }

  lemma RestSorted<C(!new)>(position: C -> Option<nat>, file: seq<C>, hive: seq<C>, i: nat, j: nat, out: seq<C>)
    requires i <= |file| && j <= |hive| && InOrder(position, file, hive) && Ahead(position, out, file[i..], hive[j..])
    requires i == |file| || j == |hive| || position(hive[j]).None? || position(file[i]).None?
    ensures Sorted(position, out + file[i..] + hive[j..])
  {
    hide Ahead, InOrder, Sorted;
    RestInSchema(position, file, hive, i);
    Finish(position, out, file[i..], hive[j..]);
  }

  /** The general case: repeatedly put out the column with the smaller schema position. */
  method MergeLoop<C(!new)>(file: seq<C>, hive: seq<C>, position: C -> Option<nat>) returns (out: seq<C>)
    requires file != [] && hive != [] && position(file[0]).Some? && position(hive[0]).Some?
    ensures Interleaves(file, hive, out)
    ensures InOrder(position, file, hive) ==> Sorted(position, out)
    ensures MergedInto(position, file, hive, out)
  {
    out := [];
    StartProgress(position, file, hive);
    hide Progress, Interleaves, InOrder, Sorted, MergedInto, Chosen;
    var files, hives := file, hive;
    var fileIndex, hiveIndex := position(file[0]).value, position(hive[0]).value;
    ghost var i, j := 0, 0;
    while true
      invariant 0 <= i < |file| && 0 <= j < |hive| && files == file[i..] && hives == hive[j..]
      invariant position(file[i]) == Some(fileIndex) && position(hive[j]) == Some(hiveIndex)
      invariant Progress(position, file, hive, i, j, out)
      decreases |file| - i + |hive| - j
    {
      Advance(position, file, hive, i, j, out);
      if fileIndex < hiveIndex {
        out := out + [files[0]];
        files := files[1..];
        i := i + 1;
        if files == [] || position(files[0]).None? {
          break;
        }
        fileIndex := position(files[0]).value;
      } else {
        out := out + [hives[0]];
        hives := hives[1..];
        j := j + 1;
        if hives == [] || position(hives[0]).None? {
          break;
        }
        hiveIndex := position(hives[0]).value;
      }
    }
    Complete(position, file, hive, i, j, out);
    out := out + files;
    out := out + hives;
  }

  lemma StartProgress<C(!new)>(position: C -> Option<nat>, file: seq<C>, hive: seq<C>)
    ensures Progress(position, file, hive, 0, 0, [])
  {
    assert file[0..] == file && hive[0..] == hive && file[..0] == [] && hive[..0] == [];
  }
}

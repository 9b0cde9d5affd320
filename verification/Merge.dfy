/** The k-way merge of the sorted files. */
module Merge {
  import opened Options
  import opened QuickSort

  // ----- what the merge is for

  /** All the numbers of all the files. */
  function Union(files: seq<seq<int>>): multiset<int> {
    if files == [] then multiset{} else multiset(files[0]) + Union(files[1..])
  }

  /** The numbers of `out` that came from file `f`, in the order of `out`. */
  function From(out: seq<int>, source: seq<nat>, f: nat): seq<int>
    requires |source| == |out|
  {
    if out == [] then []
    else From(out[..|out| - 1], source[..|out| - 1], f) +
         (if source[|out| - 1] == f then [out[|out| - 1]] else [])
  }

  /** Equal numbers come from the files in the order of the files. */
  predicate TiesInOrder(out: seq<int>, source: seq<nat>) {
    |source| == |out| && forall i, j :: 0 <= i < j < |out| && out[i] == out[j] ==> source[i] <= source[j]
  }

  // ----- the loop

  /** What is left of each file. */
  function Rest(files: seq<seq<int>>, at: seq<nat>): (r: seq<seq<int>>)
    requires |at| == |files| && forall f :: 0 <= f < |files| ==> at[f] <= |files[f]|
    ensures |r| == |files| && forall f :: 0 <= f < |files| ==> r[f] == files[f][at[f]..]
  {
    seq(|files|, f requires 0 <= f < |files| => files[f][at[f]..])
  }

  lemma {:induction false} UnionTake(files: seq<seq<int>>, f: nat, x: int, rest: seq<int>)
    requires f < |files| && files[f] == [x] + rest
    ensures Union(files) == Union(files[f := rest]) + multiset{x}
  {
    if f == 0 {
      assert files[0 := rest][1..] == files[1..];
    } else {
      UnionTake(files[1..], f - 1, x, rest);
      assert files[f := rest][1..] == files[1..][f - 1 := rest];
    }
  }

  lemma {:induction false} UnionOfNothing(files: seq<seq<int>>)
    requires forall f :: 0 <= f < |files| ==> files[f] == []
    ensures Union(files) == multiset{}
  {
    if files != [] {
      UnionOfNothing(files[1..]);
    }
  }

  /** The state of the merge: `at[f]` numbers of file `f` are written. */
  ghost predicate Merging(files: seq<seq<int>>, at: seq<nat>, out: seq<int>, source: seq<nat>) {
    && Written(files, at, out, source)
    && Ordered(files, at, out, source)
    && Union(files) == multiset(out) + Union(Rest(files, at))
  }

  ghost predicate Written(files: seq<seq<int>>, at: seq<nat>, out: seq<int>, source: seq<nat>) {
    && |at| == |files| && |source| == |out|
    && (forall f :: 0 <= f < |files| ==> at[f] <= |files[f]| && From(out, source, f) == files[f][..at[f]])
  }

  /** What is written is in order, and in front of everything that is left. */
  ghost predicate Ordered(files: seq<seq<int>>, at: seq<nat>, out: seq<int>, source: seq<nat>) {
    && |at| == |files| && |source| == |out|
    && (forall i, j :: 0 <= i < j < |out| ==> Before(out[i], source[i], out[j], source[j]))
    && (forall i, f :: 0 <= i < |out| && 0 <= f < |files| && at[f] < |files[f]| ==>
          Before(out[i], source[i], files[f][at[f]], f))
  }

  /** The order of the output: by number, and by file where the numbers are equal. */
  predicate Before(x: int, f: nat, y: int, g: nat) {
    x < y || (x == y && f <= g)
  }

  predicate Least(files: seq<seq<int>>, at: seq<nat>, m: nat)
    requires |at| == |files|
  {
    && m < |files| && at[m] < |files[m]|
    && (forall f :: 0 <= f < |files| && at[f] < |files[f]| ==> Before(files[m][at[m]], m, files[f][at[f]], f))
  }

  lemma TakesLeast(files: seq<seq<int>>, at: seq<nat>, out: seq<int>, source: seq<nat>, m: nat)
    requires forall f :: 0 <= f < |files| ==> Sorted(files[f])
    requires Merging(files, at, out, source) && Least(files, at, m)
    ensures Merging(files, at[m := at[m] + 1], out + [files[m][at[m]]], source + [m])
    ensures Left(files, at[m := at[m] + 1]) < Left(files, at)
  {
    hide Ordered, Before, Sorted;
    WritesMore(files, at, out, source, m);
    OrdersMore(files, at, out, source, m);
    LeavesLess(files, at, m);
  }

  lemma WritesMore(files: seq<seq<int>>, at: seq<nat>, out: seq<int>, source: seq<nat>, m: nat)
    requires Written(files, at, out, source) && m < |files| && at[m] < |files[m]|
    ensures Written(files, at[m := at[m] + 1], out + [files[m][at[m]]], source + [m])
  {
    var out', source' := out + [files[m][at[m]]], source + [m];
    assert out'[..|out|] == out && source'[..|out|] == source;
    assert files[m][..at[m] + 1] == files[m][..at[m]] + [files[m][at[m]]];
  }

  lemma OrdersMore(files: seq<seq<int>>, at: seq<nat>, out: seq<int>, source: seq<nat>, m: nat)
    requires forall f :: 0 <= f < |files| ==> Sorted(files[f])
    requires Ordered(files, at, out, source) && Least(files, at, m)
    ensures Ordered(files, at[m := at[m] + 1], out + [files[m][at[m]]], source + [m])
  {
  }

  lemma LeavesLess(files: seq<seq<int>>, at: seq<nat>, m: nat)
    requires |at| == |files| && (forall f :: 0 <= f < |files| ==> at[f] <= |files[f]|)
    requires m < |files| && at[m] < |files[m]|
    ensures Union(Rest(files, at)) == Union(Rest(files, at[m := at[m] + 1])) + multiset{files[m][at[m]]}
  {
    var rest := files[m][at[m] + 1..];
    assert Rest(files, at[m := at[m] + 1]) == Rest(files, at)[m := rest];
    assert files[m][at[m]..] == [files[m][at[m]]] + rest;
    UnionTake(Rest(files, at), m, files[m][at[m]], rest);
  }

  lemma Starts(files: seq<seq<int>>, at: seq<nat>)
    requires |at| == |files| && forall f :: 0 <= f < |files| ==> at[f] == 0
    ensures Merging(files, at, [], [])
  {
    assert Rest(files, at) == files;
  }

  lemma Ends(files: seq<seq<int>>, at: seq<nat>, out: seq<int>, source: seq<nat>)
    requires Merging(files, at, out, source) && forall f :: 0 <= f < |files| ==> at[f] == |files[f]|
    ensures multiset(out) == Union(files)
    ensures forall f :: 0 <= f < |files| ==> From(out, source, f) == files[f]
  {
    UnionOfNothing(Rest(files, at));
    forall f | 0 <= f < |files| ensures From(out, source, f) == files[f] {
      assert files[f][..at[f]] == files[f];
    }
  }

  // ----- the code

  ghost function Contents(files: seq<array<int>>): (r: seq<seq<int>>)
    reads files
    ensures |r| == |files| && forall f :: 0 <= f < |files| ==> r[f] == files[f][..]
  {
    seq(|files|, f requires 0 <= f < |files| reads files => files[f][..])
  }

  /** One pass over the files: the first file whose next number is least, or none if all are used up. */
  method FindLeast(files: seq<array<int>>, at: array<nat>) returns (least: Option<nat>)
    requires at.Length == |files| && forall f :: 0 <= f < |files| ==> at[f] <= files[f].Length
    ensures least.Some? ==> Least(Contents(files), at[..], least.value)
    ensures least.None? ==> forall f :: 0 <= f < |files| ==> at[f] == files[f].Length
  {
    least := None;
    for f := 0 to |files|
      invariant least.Some? ==> least.value < f && at[least.value] < files[least.value].Length
      invariant least.Some? ==> forall g :: 0 <= g < f && at[g] < files[g].Length ==>
                  Before(files[least.value][at[least.value]], least.value, files[g][at[g]], g)
      invariant least.None? ==> forall g :: 0 <= g < f ==> at[g] == files[g].Length
    {
      if files[f].Length == at[f] {
        continue;
      }
      if least.None? || files[least.value][at[least.value]] > files[f][at[f]] {
        least := Some(f);
      }
    }
  }

  /** Every number of every file is written once, in order; equal numbers in the order of the files. */
  method WriteMerged(files: seq<array<int>>) returns (out: seq<int>, ghost source: seq<nat>)
    requires forall f :: 0 <= f < |files| ==> Sorted(files[f][..])
    ensures Sorted(out) && multiset(out) == Union(Contents(files))
    ensures TiesInOrder(out, source)
    ensures forall f :: 0 <= f < |files| ==> From(out, source, f) == files[f][..]
  {
    hide Merging, Least, Sorted, TiesInOrder;
    out, source := [], [];
    ghost var data := Contents(files);
    var at := new nat[|files|](_ => 0);
    Starts(data, at[..]);
    while true
      invariant fresh(at) && at.Length == |files| && data == Contents(files)
      invariant Merging(data, at[..], out, source)
      decreases Left(data, at[..])
    {
      Within(data, at[..], out, source);
      var least := FindLeast(files, at);
      if least.None? {
        break;
      }
      var m := least.value;
      TakesLeast(data, at[..], out, source, m);
      ghost var before := at[..];
      out, source := out + [files[m][at[m]]], source + [m];
      at[m] := at[m] + 1;
      assert at[..] == before[m := before[m] + 1];
    }
    Ends(data, at[..], out, source);
    InOrder(data, at[..], out, source);
  }

  lemma Within(files: seq<seq<int>>, at: seq<nat>, out: seq<int>, source: seq<nat>)
    requires Merging(files, at, out, source)
    ensures |at| == |files| && forall f :: 0 <= f < |files| ==> at[f] <= |files[f]|
  {
  }

  lemma InOrder(files: seq<seq<int>>, at: seq<nat>, out: seq<int>, source: seq<nat>)
    requires Merging(files, at, out, source)
    ensures Sorted(out) && TiesInOrder(out, source)
  {
  }

  ghost function Left(files: seq<seq<int>>, at: seq<nat>): nat {
    if |at| == |files| && forall f :: 0 <= f < |files| ==> at[f] <= |files[f]| then |Union(Rest(files, at))| else 0
  }

  /** What is written depends on the numbers alone. */
  lemma OutputIsUnique(files: seq<seq<int>>, out: seq<int>, out': seq<int>)
    requires Sorted(out) && multiset(out) == Union(files)
    requires Sorted(out') && multiset(out') == Union(files)
    ensures out == out'
  {
    SortedIsUnique(out, out');
  }
}

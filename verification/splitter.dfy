/** The data split of splitter.py: the shuffled listing folders are sliced into
    train, test and validation sets, and the train set is then dealt into `n`
    parts of near-equal size by repeated random choice.

    The ratios are floating point in the source; the set sizes they give,
    `int(len * ratio)`, are taken here as the naturals `nTrain` and `nTest`.
    The shuffle is any permutation, so the folders arrive already shuffled;
    `random.choice` is an arbitrary choice. Copying and moving folders are
    replaced by the lists of names they produce.
 */
module Splitter {
  import opened Results
  import opened Text

  function Min(a: int, b: int): int {
    if a <= b then a else b
  }

  /** `s[lo:hi]` for non-negative bounds: both are clamped to the length and
      a slice whose end is before its start is empty. */
  function Slice<T>(s: seq<T>, lo: nat, hi: nat): (r: seq<T>)
    ensures |r| == if Min(hi, |s|) <= Min(lo, |s|) then 0 else Min(hi, |s|) - Min(lo, |s|)
    ensures forall i :: 0 <= i < |r| ==> r[i] == s[Min(lo, |s|) + i]
  {
    var a := Min(lo, |s|);
    var b := Min(hi, |s|);
    if b <= a then [] else s[a..b]
  }

  /** The three sets of `split_data`: `folders[:n_train]`,
      `folders[n_train:n_train + n_test]` and `folders[n_train + n_test:]`. */
  function SplitSets<T>(folders: seq<T>, nTrain: nat, nTest: nat): (sets: (seq<T>, seq<T>, seq<T>))
    ensures sets.0 + sets.1 + sets.2 == folders
    ensures |sets.0| == Min(nTrain, |folders|)
    ensures |sets.1| == Min(nTest, |folders| - |sets.0|)
  {
    var train := Slice(folders, 0, nTrain);
    var test := Slice(folders, nTrain, nTrain + nTest);
    var valid := Slice(folders, nTrain + nTest, |folders|);
    assert train + test + valid == folders;
    (train, test, valid)
  }

  /** When the folder names are distinct, no folder lands in two sets. */
  lemma SetsDisjoint<T>(folders: seq<T>, nTrain: nat, nTest: nat)
    requires Distinct(folders)
    ensures var sets := SplitSets(folders, nTrain, nTest);
            && multiset(sets.0) !! multiset(sets.1)
            && multiset(sets.0) !! multiset(sets.2)
            && multiset(sets.1) !! multiset(sets.2)
  {
    var sets := SplitSets(folders, nTrain, nTest);
    DistinctThirds(sets.0, sets.1, sets.2);
  }

  lemma DistinctThirds<T>(a: seq<T>, b: seq<T>, c: seq<T>)
    requires Distinct(a + b + c)
    ensures multiset(a) !! multiset(b) && multiset(a) !! multiset(c) && multiset(b) !! multiset(c)
  {
    assert a + b + c == a + (b + c);
    DistinctHalves(a, b + c);
    assert multiset(b + c) == multiset(b) + multiset(c);
    DistinctTail(a, b + c);
    DistinctHalves(b, c);
  }

  /** The two halves of a list without repeats share no element. */
  lemma DistinctHalves<T>(a: seq<T>, b: seq<T>)
    requires Distinct(a + b)
    ensures multiset(a) !! multiset(b)
  {
    forall x | x in multiset(a) ensures x !in multiset(b) {
      var i :| 0 <= i < |a| && a[i] == x;
      forall j | 0 <= j < |b| ensures b[j] != x {
        assert (a + b)[i] == x && (a + b)[|a| + j] == b[j];
      }
    }
  }

  lemma DistinctTail<T>(a: seq<T>, b: seq<T>)
    requires Distinct(a + b)
    ensures Distinct(b)
  {
    forall i, j | 0 <= i < j < |b| ensures b[i] != b[j] {
      assert (a + b)[|a| + i] == b[i] && (a + b)[|a| + j] == b[j];
    }
  }

  /** The sum of a list of sizes. */
  function Sum(s: seq<nat>): nat
  {
    if |s| == 0 then 0 else s[0] + Sum(s[1..])
  }

  /** `k` copies of `x`. */
  function Repeat(x: nat, k: nat): (r: seq<nat>)
    ensures |r| == k
    ensures forall i :: 0 <= i < k ==> r[i] == x
  {
    if k == 0 then [] else [x] + Repeat(x, k - 1)
  }

  lemma {:induction false} SumRepeat(x: nat, k: nat)
    ensures Sum(Repeat(x, k)) == x * k
  {
    if k > 0 {
      SumRepeat(x, k - 1);
      assert Repeat(x, k)[1..] == Repeat(x, k - 1);
    }
  }

  /** Increasing the last size raises the sum by as much. */
  lemma {:induction false} SumBumpLast(s: seq<nat>, d: nat)
    requires |s| > 0
    ensures Sum(s[|s| - 1 := s[|s| - 1] + d]) == Sum(s) + d
  {
    if |s| > 1 {
      SumBumpLast(s[1..], d);
      assert s[|s| - 1 := s[|s| - 1] + d][1..] == s[1..][|s| - 2 := s[|s| - 1] + d];
    }
  }

  /** The part sizes of lines 91-93: `n` copies of `count // n`, with
      `count % n` added to the last. `n = 0` fails at the division, and a
      negative `n` gives an empty list whose last element does not exist. */
  function PartSizes(count: nat, n: int): (r: Result<seq<nat>>)
    ensures n == 0 <==> r == Err(ZeroDivisionError)
    ensures n < 0 <==> r == Err(IndexError)
    ensures r.Ok? ==> |r.value| == n
    ensures r.Ok? ==> Sum(r.value) == count
    ensures r.Ok? ==> forall i :: 0 <= i < n - 1 ==> r.value[i] == count / n
    ensures r.Ok? ==> r.value[n - 1] == count / n + count % n
    ensures r.Ok? ==> r.value[n - 1] <= count / n + n - 1
  {
    if n == 0 then Err(ZeroDivisionError)
    else if n < 0 then Err(IndexError)
    else
      var base := Repeat(count / n, n);
      SumRepeat(count / n, n);
      SumBumpLast(base, count % n);
      Ok(base[n - 1 := base[n - 1] + count % n])
  }

  /** The parts laid end to end. */
  function Flatten<T>(parts: seq<seq<T>>): seq<T>
  {
    if |parts| == 0 then [] else Flatten(parts[..|parts| - 1]) + parts[|parts| - 1]
  }

  /** `list.remove(x)`: the first occurrence of `x` is taken out. */
  function RemoveFirst<T(==)>(s: seq<T>, x: T): (r: seq<T>)
    requires x in s
    ensures |r| == |s| - 1
    ensures multiset(r) == multiset(s) - multiset{x}
  {
    if s[0] == x then
      assert s == [s[0]] + s[1..];
      s[1..]
    else
      var rest := RemoveFirst(s[1..], x);
      assert s == [s[0]] + s[1..];
      [s[0]] + rest
  }

  /** The move loop of lines 95-105: part `i` receives `sizes[i]` folders,
      each chosen at random among those still in the train folder and then
      removed from it. Every folder ends in exactly as many parts as it
      occurred in the train set, and the train folder is left empty. */
  method DealParts<T(==)>(trainFolders: seq<T>, sizes: seq<nat>) returns (parts: seq<seq<T>>, remaining: seq<T>)
    requires Sum(sizes) == |trainFolders|
    ensures |parts| == |sizes|
    ensures forall i :: 0 <= i < |sizes| ==> |parts[i]| == sizes[i]
    ensures remaining == []
    ensures multiset(Flatten(parts)) == multiset(trainFolders)
  {
    parts := [];
    remaining := trainFolders;
    var i := 0;
    while i < |sizes|
      invariant 0 <= i <= |sizes|
      invariant |parts| == i
      invariant forall j :: 0 <= j < i ==> |parts[j]| == sizes[j]
      invariant |remaining| == Sum(sizes[i..])
      invariant multiset(Flatten(parts)) + multiset(remaining) == multiset(trainFolders)
    {
      assert Sum(sizes[i..]) == sizes[i] + Sum(sizes[i + 1..]) by {
        assert sizes[i..][1..] == sizes[i + 1..];
      }
      var part, rest := FillPart(remaining, sizes[i]);
      remaining := rest;
      assert Flatten(parts + [part]) == Flatten(parts) + part by {
        assert (parts + [part])[..|parts|] == parts;
      }
      parts := parts + [part];
      i := i + 1;
    }
    assert sizes[|sizes|..] == [];
  }

  /** One part: `size` times, a folder still in the train folder is chosen
      at random, added to the part and removed from the train folder. */
  method FillPart<T(==)>(remaining: seq<T>, size: nat) returns (part: seq<T>, rest: seq<T>)
    requires size <= |remaining|
    ensures |part| == size
    ensures |rest| == |remaining| - size
    ensures multiset(part) + multiset(rest) == multiset(remaining)
  {
    part := [];
    rest := remaining;
    var m := 0;
    while m < size
      invariant 0 <= m <= size
      invariant |part| == m
      invariant |rest| == |remaining| - m
      invariant multiset(part) + multiset(rest) == multiset(remaining)
    {
      var k :| 0 <= k < |rest|;
      var folder := rest[k];
      part := part + [folder];
      rest := RemoveFirst(rest, folder);
      m := m + 1;
    }
  }

  /** The train half of `split_data`: the part sizes, then the dealing. */
  method SplitTrain<T(==)>(trainFolders: seq<T>, n: int) returns (r: Result<seq<seq<T>>>)
    ensures r.Err? <==> n <= 0
    ensures r.Ok? ==> |r.value| == n
    ensures r.Ok? ==> forall i :: 0 <= i < n - 1 ==> |r.value[i]| == |trainFolders| / n
    ensures r.Ok? ==> multiset(Flatten(r.value)) == multiset(trainFolders)
  {
    var sizes := PartSizes(|trainFolders|, n);
    if sizes.Err? {
      return Err(sizes.error);
    }
    var parts, _ := DealParts(trainFolders, sizes.value);
    r := Ok(parts);
  }
}

/** How the end-to-end tests are spread over parallel groups. */
module RoundRobin {
  import opened TextOrder
  import StableSort

  datatype Outcome = Ran(group: seq<string>) | ZeroDivisionError | KeyError

  /** Python's `%` for an index: the result has the sign of the divisor. */
  function PythonMod(a: int, b: int): int
    requires b != 0
  {
    if b > 0 then a % b else -((-a) % -b)
  }

  /** The entries at positions congruent to `g`, in order. */
  function Strided(files: seq<string>, g: nat, parallelism: nat): seq<string>
    requires parallelism > 0
  {
    if files == [] then []
    else
      var n := |files| - 1;
      Strided(files[..n], g, parallelism) + (if n % parallelism == g then [files[n]] else [])
  }

  function TextSorted(files: seq<string>): seq<string> {
    StableSort.Sorted(files, Alphabetical())
  }

  function Alphabetical(): (string, string) -> bool {
    (x: string, y: string) => TextLe(x, y)
  }

  /** `{i: [] for i in range(parallelism)}`. */
  function EmptyGroups(parallelism: int): (groups: map<int, seq<string>>)
    ensures forall g :: g in groups <==> 0 <= g < parallelism
    ensures forall g :: g in groups ==> groups[g] == []
  {
    if parallelism <= 0 then map[] else EmptyGroups(parallelism - 1)[parallelism - 1 := []]
  }

  /** Every group has its share of the files handed out so far. */
  ghost predicate Distributed(groups: map<int, seq<string>>, files: seq<string>, parallelism: int) {
    && (forall g :: g in groups <==> 0 <= g < parallelism)
    && forall g {:trigger groups[g]} :: 0 <= g < parallelism ==> groups[g] == Strided(files, g, parallelism)
  }

  lemma PositiveMod(a: nat, b: int)
    requires b > 0
    ensures 0 <= PythonMod(a, b) < b && PythonMod(a, b) == a % b
  {
  }

  lemma StridedExtends(files: seq<string>, k: nat, g: nat, parallelism: nat)
    requires parallelism > 0 && k < |files|
    ensures Strided(files[..k + 1], g, parallelism) ==
      Strided(files[..k], g, parallelism) + (if k % parallelism == g then [files[k]] else [])
  {
    assert files[..k + 1][..k] == files[..k];
  }

  /** One more file. */
  lemma DistributedStep(groups: map<int, seq<string>>, files: seq<string>, k: nat, parallelism: int)
    requires parallelism != 0 && k < |files| && Distributed(groups, files[..k], parallelism)
    requires PythonMod(k, parallelism) in groups
    ensures parallelism > 0
    ensures var g := PythonMod(k, parallelism);
      Distributed(groups[g := groups[g] + [files[k]]], files[..k + 1], parallelism)
  {
    PositiveMod(k, parallelism);
    var chosen := PythonMod(k, parallelism);
    var groups' := groups[chosen := groups[chosen] + [files[k]]];
    forall g | 0 <= g < parallelism
      ensures groups'[g] == Strided(files[..k + 1], g, parallelism)
    {
      StridedExtends(files, k, g, parallelism);
    }
  }

  /** The group a worker runs, or the exception that ends it. */
  method SpecList(testFiles: seq<string>, parallelism: int, id: int) returns (r: Outcome)
    ensures parallelism > 0 && 0 <= id < parallelism ==> r == Ran(Strided(TextSorted(testFiles), id, parallelism))
    ensures parallelism == 0 && testFiles != [] ==> r == ZeroDivisionError
    ensures parallelism > 0 && !(0 <= id < parallelism) ==> r == KeyError
    ensures parallelism < 0 || (parallelism == 0 && testFiles == []) ==> r == KeyError
  {
    var groups := EmptyGroups(parallelism);
    var sorted := TextSorted(testFiles);
    SortedFiles(testFiles);
    for index := 0 to |sorted|
      invariant index > 0 ==> parallelism > 0
      invariant Distributed(groups, sorted[..index], parallelism)
    {
      if parallelism == 0 {
        return ZeroDivisionError;
      }
      var group := PythonMod(index, parallelism);
      if parallelism > 0 {
        PositiveMod(index, parallelism);
      }
      if group !in groups {
        return KeyError;
      }
      DistributedStep(groups, sorted, index, parallelism);
      groups := groups[group := groups[group] + [sorted[index]]];
    }
    assert sorted[..|sorted|] == sorted;
    if id !in groups {
      return KeyError;
    }
    return Ran(groups[id]);
  }

  /** The files are all there, in alphabetical order. */
  lemma SortedFiles(files: seq<string>)
    ensures multiset(TextSorted(files)) == multiset(files) && |TextSorted(files)| == |files|
    ensures var sorted := TextSorted(files);
      forall i, j :: 0 <= i < j < |sorted| ==> NotAfter(sorted[i], sorted[j])
  {
    TextKeyIsPreorder((x: string) => x, Alphabetical());
    StableSort.SortedIsOrdered(files, Alphabetical());
    var sorted := TextSorted(files);
    forall i, j | 0 <= i < j < |sorted|
      ensures NotAfter(sorted[i], sorted[j])
    {
      assert Alphabetical()(sorted[i], sorted[j]);
      TextLeIsNotAfter(sorted[i], sorted[j]);
    }
  }

  // ---------------------------------------------------------------------------
  // The groups partition the files

  lemma MultipleAtLeast(d: int, p: nat)
    ensures d >= 1 ==> d * p >= p
    ensures d <= -1 ==> d * p + p <= 0
  {
    if d >= 1 {
      assert (d - 1) * p >= 0;
    } else if d <= -1 {
      assert (d + 1) * p <= 0;
    }
  }

  lemma DivModUnique(n: nat, p: nat, q: nat, r: nat)
    requires p > 0 && r < p && n == q * p + r
    ensures n / p == q && n % p == r
  {
    var d := q - n / p;
    assert n == n / p * p + n % p;
    assert d * p == q * p - n / p * p;
    MultipleAtLeast(d, p);
  }

  lemma DivModStep(n: nat, p: nat)
    requires p > 0
    ensures n % p + 1 < p ==> (n + 1) / p == n / p && (n + 1) % p == n % p + 1
    ensures n % p + 1 == p ==> (n + 1) / p == n / p + 1 && (n + 1) % p == 0
  {
    var q, r := n / p, n % p;
    assert n == q * p + r;
    if r + 1 < p {
      DivModUnique(n + 1, p, q, r + 1);
    } else {
      assert (q + 1) * p == q * p + p;
      DivModUnique(n + 1, p, q + 1, 0);
    }
  }

  /** A group has as many entries as there are full rounds, and one more if the last, partial, round
      reaches it. */
  lemma {:induction false} GroupSize(files: seq<string>, g: nat, p: nat)
    requires g < p
    ensures |Strided(files, g, p)| == |files| / p + (if g < |files| % p then 1 else 0)
  {
    if files == [] {
      DivModUnique(0, p, 0, 0);
    } else {
      var n := |files| - 1;
      GroupSize(files[..n], g, p);
      DivModStep(n, p);
    }
  }

  lemma SizesDifferByAtMostOne(files: seq<string>, g: nat, h: nat, p: nat)
    requires g < p && h < p
    ensures |Strided(files, g, p)| <= |Strided(files, h, p)| + 1
  {
    GroupSize(files, g, p);
    GroupSize(files, h, p);
  }

  /** File number i is entry i / p of group i % p: interleaving the groups rebuilds the list. */
  lemma {:induction false} Interleaved(files: seq<string>, i: nat, p: nat)
    requires p > 0 && i < |files|
    ensures i / p < |Strided(files, i % p, p)| && Strided(files, i % p, p)[i / p] == files[i]
  {
    var n := |files| - 1;
    if i < n {
      Interleaved(files[..n], i, p);
    } else {
      GroupSize(files[..n], i % p, p);
    }
  }

  /** Entry j of group g is file number j * p + g. */
  lemma EntryOfGroup(files: seq<string>, g: nat, j: nat, p: nat)
    requires g < p && j < |Strided(files, g, p)|
    ensures j * p + g < |files| && Strided(files, g, p)[j] == files[j * p + g]
  {
    GroupSize(files, g, p);
    RoundFits(|files|, j, g, p);
    DivModUnique(j * p + g, p, j, g);
    Interleaved(files, j * p + g, p);
  }

  lemma RoundFits(n: nat, j: nat, g: nat, p: nat)
    requires g < p && j < n / p + (if g < n % p then 1 else 0)
    ensures j * p + g < n
  {
    var q := n / p;
    assert n == q * p + n % p;
    if j < q {
      MultipleAtLeast(q - j, p);
      assert (q - j) * p == q * p - j * p;
    }
  }
}

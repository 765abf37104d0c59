/**
 Which workflow runs the cancelling script picks: all but the latest of each group,
 where a group is an event, a branch and a workflow, told apart by one text key.
 */
module CancelRuns {
  import opened Sequences
  import opened Wrappers
  import opened TextOrder
  import StableSort

  /** The fields of a workflow run that matter; a run may have no branch. */
  datatype Run = Run(id: nat, event: string, branch: Option<string>, workflowId: nat, createdAt: string)

  // ---------------------------------------------------------------------------
  // The key

  const EVENTS: set<string> := {"pull_request", "push", "issue"}

  /** A branch as Python formats it. */
  function BranchText(branch: Option<string>): string {
    match branch
    case None => "None"
    case Some(name) => name
  }

  function Digit(d: nat): char
    requires d < 10
  {
    ('0' as int + d) as char
  }

  function Decimal(n: nat): (s: string)
    ensures s != ""
  {
    if n < 10 then [Digit(n)] else Decimal(n / 10) + [Digit(n % 10)]
  }

  function Key(r: Run): string {
    r.event + "_" + BranchText(r.branch) + "_" + Decimal(r.workflowId)
  }

  lemma {:induction false} DecimalHasNoUnderscore(n: nat)
    ensures '_' !in Decimal(n)
  {
    if n >= 10 {
      DecimalHasNoUnderscore(n / 10);
    }
  }

  lemma {:induction false} DecimalInjective(m: nat, n: nat)
    requires Decimal(m) == Decimal(n)
    ensures m == n
  {
    var s := Decimal(m);
    assert s[|s| - 1] == Digit(m % 10) == Digit(n % 10);
    if m >= 10 && n >= 10 {
      assert s[..|s| - 1] == Decimal(m / 10) == Decimal(n / 10);
      DecimalInjective(m / 10, n / 10);
    }
  }

  /** A text splits in one way at its last underscore. */
  lemma LastUnderscore(a: string, d: string, b: string, e: string)
    requires a + "_" + d == b + "_" + e && '_' !in d && '_' !in e
    ensures a == b && d == e
  {
    var s := a + "_" + d;
    assert s[|a|] == '_' && s[|b|] == '_';
    forall k | |a| < k < |s|
      ensures s[k] != '_'
    {
      assert s[k] == d[k - |a| - 1];
    }
    forall k | |b| < k < |s|
      ensures s[k] != '_'
    {
      assert s[k] == e[k - |b| - 1];
    }
    assert |a| == |b|;
    assert a == s[..|a|] && b == s[..|b|];
    assert d == s[|a| + 1..] && e == s[|b| + 1..];
  }

  /** None of the events followed by an underscore begins another one. */
  lemma EventPrefix(e: string, x: string, f: string, y: string)
    requires e in EVENTS && f in EVENTS && e + "_" + x == f + "_" + y
    ensures e == f && x == y
  {
    var s := e + "_" + x;
    assert s == f + "_" + y;
    assert s[0] == e[0] == f[0];
    assert s[2] == e[2] == f[2];
    assert e == f;
    assert x == s[|e| + 1..] && y == s[|f| + 1..];
  }

  /** The key is as good as the triple, branch names with underscores included, save that a missing
      branch cannot be told from one that is called "None". */
  lemma KeyInjective(r: Run, s: Run)
    requires r.event in EVENTS && s.event in EVENTS
    ensures Key(r) == Key(s) <==>
      r.event == s.event && r.workflowId == s.workflowId
      && (r.branch == s.branch || BranchText(r.branch) == BranchText(s.branch) == "None")
  {
    if Key(r) == Key(s) {
      DecimalHasNoUnderscore(r.workflowId);
      DecimalHasNoUnderscore(s.workflowId);
      LastUnderscore(r.event + "_" + BranchText(r.branch), Decimal(r.workflowId),
                     s.event + "_" + BranchText(s.branch), Decimal(s.workflowId));
      DecimalInjective(r.workflowId, s.workflowId);
      EventPrefix(r.event, BranchText(r.branch), s.event, BranchText(s.branch));
    }
  }

  /** The two runs that are taken for one group although their branches differ. */
  lemma MissingBranchCollides()
    ensures var r, s := Run(1, "push", None, 7, ""), Run(2, "push", Some("None"), 7, "");
      r.branch != s.branch && Key(r) == Key(s)
  {
  }

  // ---------------------------------------------------------------------------
  // The selection

  predicate HasKey(runs: seq<Run>, key: string) {
    exists i :: 0 <= i < |runs| && Key(runs[i]) == key
  }

  /** The runs that a later one of the same group supersedes, in order. */
  function Superseded(runs: seq<Run>): seq<Run> {
    if runs == [] then []
    else (if HasKey(runs[1..], Key(runs[0])) then [runs[0]] else []) + Superseded(runs[1..])
  }

  /** The last run of each group, in order. */
  function Latest(runs: seq<Run>): seq<Run> {
    if runs == [] then []
    else (if HasKey(runs[1..], Key(runs[0])) then [] else [runs[0]]) + Latest(runs[1..])
  }

  /** The loop over the runs from the newest on, and the reversal of what it found. */
  method SelectSuperseded(runs: seq<Run>) returns (cancelled: seq<Run>)
    ensures cancelled == Superseded(runs)
  {
    var seen: set<string>, dups: seq<Run>, i := {}, [], |runs|;
    while i > 0
      invariant 0 <= i <= |runs|
      invariant forall key :: key in seen <==> HasKey(runs[i..], key)
      invariant Reverse(dups) == Superseded(runs[i..])
    {
      i := i - 1;
      var item := runs[i];
      var key := Key(item);
      ghost var tail := runs[i..];
      assert tail[0] == item && tail[1..] == runs[i + 1..];
      HasKeyFirst(tail);
      if key in seen {
        ReverseAppend(dups, item);
        dups := dups + [item];
      } else {
        assert [] + Superseded(tail[1..]) == Superseded(tail[1..]);
        seen := seen + {key};
      }
    }
    assert runs[0..] == runs;
    cancelled := Reverse(dups);
  }

  lemma HasKeyFirst(runs: seq<Run>)
    requires runs != []
    ensures forall key :: HasKey(runs, key) <==> key == Key(runs[0]) || HasKey(runs[1..], key)
  {
    forall key
      ensures HasKey(runs, key) <==> key == Key(runs[0]) || HasKey(runs[1..], key)
    {
      if HasKey(runs[1..], key) {
        var i :| 0 <= i < |runs[1..]| && Key(runs[1..][i]) == key;
        assert Key(runs[i + 1]) == key;
      }
      if HasKey(runs, key) {
        var i :| 0 <= i < |runs| && Key(runs[i]) == key;
        assert i > 0 ==> Key(runs[1..][i - 1]) == key;
      }
    }
  }

  function OlderFirst(): (Run, Run) -> bool {
    (r: Run, s: Run) => TextLe(r.createdAt, s.createdAt)
  }

  lemma OlderFirstIsPreorder()
    ensures StableSort.TotalPreorder(OlderFirst())
  {
    TextKeyIsPreorder((r: Run) => r.createdAt, OlderFirst());
  }

  // ---------------------------------------------------------------------------
  // What the selection means

  /** Each run is cancelled or kept. */
  lemma {:induction false} SelectionIsPartition(runs: seq<Run>)
    ensures multiset(runs) == multiset(Superseded(runs)) + multiset(Latest(runs))
  {
    if runs != [] {
      SelectionIsPartition(runs[1..]);
      assert runs == [runs[0]] + runs[1..];
    }
  }

  ghost predicate DistinctKeys(runs: seq<Run>) {
    forall i, j :: 0 <= i < j < |runs| ==> Key(runs[i]) != Key(runs[j])
  }

  lemma {:induction false} LatestHasKey(runs: seq<Run>, key: string)
    ensures HasKey(Latest(runs), key) <==> HasKey(runs, key)
  {
    if runs != [] {
      var rest := runs[1..];
      LatestHasKey(rest, key);
      HasKeyFirst(runs);
      if HasKey(rest, Key(runs[0])) {
        assert Latest(runs) == Latest(rest);
      } else {
        assert Latest(runs) == [runs[0]] + Latest(rest) && Latest(runs)[1..] == Latest(rest);
        HasKeyFirst(Latest(runs));
      }
    }
  }

  /** One run of each group is kept. */
  lemma {:induction false} OneKeptPerGroup(runs: seq<Run>)
    ensures DistinctKeys(Latest(runs))
  {
    if runs != [] {
      var rest := runs[1..];
      var latest, key := Latest(rest), Key(runs[0]);
      OneKeptPerGroup(rest);
      if HasKey(rest, key) {
        assert Latest(runs) == latest;
      } else {
        assert Latest(runs) == [runs[0]] + latest;
        LatestHasKey(rest, key);
        forall j | 0 <= j < |latest|
          ensures Key(latest[j]) != key
        {
        }
      }
    }
  }

  /** No run of a group is newer than the one that is kept. */
  lemma {:induction false} KeptIsNewest(runs: seq<Run>, i: nat, k: nat)
    requires StableSort.Ordered(runs, OlderFirst())
    requires i < |runs| && k < |Latest(runs)| && Key(runs[i]) == Key(Latest(runs)[k])
    ensures NotAfter(runs[i].createdAt, Latest(runs)[k].createdAt)
  {
    var j := KeptIsLast(runs, k);
    if i < j {
      assert OlderFirst()(runs[i], runs[j]);
      TextLeIsNotAfter(runs[i].createdAt, runs[j].createdAt);
    } else {
      assert i == j;
    }
  }

  /** The kept run is the last of its group in the sorted order, so of runs created at the same
      moment it is the one that was listed last. */
  lemma {:induction false} KeptIsLast(runs: seq<Run>, k: nat) returns (j: nat)
    requires k < |Latest(runs)|
    ensures j < |runs| && runs[j] == Latest(runs)[k]
    ensures forall i :: j < i < |runs| ==> Key(runs[i]) != Key(runs[j])
  {
    var rest := runs[1..];
    var superseded := HasKey(rest, Key(runs[0]));
    assert Latest(runs) == (if superseded then [] else [runs[0]]) + Latest(rest);
    if !superseded && k == 0 {
      j := 0;
      forall i | 0 < i < |runs|
        ensures Key(runs[i]) != Key(runs[0])
      {
        assert rest[i - 1] == runs[i];
      }
    } else {
      var j' := KeptIsLast(rest, if superseded then k else k - 1);
      j := j' + 1;
      forall i | j < i < |runs|
        ensures Key(runs[i]) != Key(runs[j])
      {
        assert rest[i - 1] == runs[i];
      }
    }
  }

  lemma {:induction false} SupersededAreRuns(runs: seq<Run>, k: nat) returns (i: nat)
    requires k < |Superseded(runs)|
    ensures i < |runs| && runs[i] == Superseded(runs)[k]
  {
    var rest := runs[1..];
    if HasKey(rest, Key(runs[0])) && k == 0 {
      i := 0;
    } else {
      i := SupersededAreRuns(rest, if HasKey(rest, Key(runs[0])) then k - 1 else k);
      i := i + 1;
    }
  }

  /** Runs are cancelled oldest first. */
  lemma {:induction false} CancelledOldestFirst(runs: seq<Run>)
    requires StableSort.Ordered(runs, OlderFirst())
    ensures StableSort.Ordered(Superseded(runs), OlderFirst())
  {
    if runs != [] {
      var rest := runs[1..];
      var older := Superseded(rest);
      CancelledOldestFirst(rest);
      if HasKey(rest, Key(runs[0])) {
        assert Superseded(runs) == [runs[0]] + older;
        forall k | 0 <= k < |older|
          ensures OlderFirst()(runs[0], older[k])
        {
          var i := SupersededAreRuns(rest, k);
          assert rest[i] == runs[i + 1];
        }
      } else {
        assert Superseded(runs) == older;
      }
    }
  }

  /** Among the kept runs there is one of the group of `r`, no older than `r`. */
  ghost predicate HasNewest(kept: seq<Run>, r: Run) {
    exists k :: 0 <= k < |kept| && Key(kept[k]) == Key(r) && NotAfter(r.createdAt, kept[k].createdAt)
  }

  ghost predicate OldestFirst(runs: seq<Run>) {
    forall i, j :: 0 <= i < j < |runs| ==> NotAfter(runs[i].createdAt, runs[j].createdAt)
  }

  lemma OrderedIsOldestFirst(runs: seq<Run>)
    requires StableSort.Ordered(runs, OlderFirst())
    ensures OldestFirst(runs)
  {
    forall i, j | 0 <= i < j < |runs|
      ensures NotAfter(runs[i].createdAt, runs[j].createdAt)
    {
      assert OlderFirst()(runs[i], runs[j]);
      TextLeIsNotAfter(runs[i].createdAt, runs[j].createdAt);
    }
  }

  lemma KeptHasNewest(runs: seq<Run>, r: Run)
    requires StableSort.Ordered(runs, OlderFirst()) && r in runs
    ensures HasNewest(Latest(runs), r)
  {
    var i :| 0 <= i < |runs| && runs[i] == r;
    assert HasKey(runs, Key(runs[i]));
    LatestHasKey(runs, Key(r));
    var k :| 0 <= k < |Latest(runs)| && Key(Latest(runs)[k]) == Key(r);
    KeptIsNewest(runs, i, k);
  }

  lemma SortedRuns(found: seq<Run>)
    ensures var runs := StableSort.Sorted(found, OlderFirst());
      && StableSort.Ordered(runs, OlderFirst()) && OldestFirst(runs)
      && multiset(runs) == multiset(found)
      && forall r :: r in found ==> r in runs
  {
    var runs := StableSort.Sorted(found, OlderFirst());
    OlderFirstIsPreorder();
    StableSort.SortedIsOrdered(found, OlderFirst());
    OrderedIsOldestFirst(runs);
    forall r | r in found
      ensures r in runs
    {
      assert r in multiset(found);
    }
  }

  /** What the script does without `--include-last`: the found runs minus one survivor a group, which
      is the newest of its group, oldest first. */
  lemma CancelsAllButNewest(found: seq<Run>)
    ensures var runs := StableSort.Sorted(found, OlderFirst());
      && multiset(found) == multiset(Superseded(runs)) + multiset(Latest(runs))
      && OldestFirst(Superseded(runs))
      && DistinctKeys(Latest(runs))
      && (forall r :: r in found ==> HasNewest(Latest(runs), r))
  {
    var runs := StableSort.Sorted(found, OlderFirst());
    SortedRuns(found);
    SelectionIsPartition(runs);
    OneKeptPerGroup(runs);
    CancelledOldestFirst(runs);
    OrderedIsOldestFirst(Superseded(runs));
    forall r | r in found
      ensures HasNewest(Latest(runs), r)
    {
      KeptHasNewest(runs, r);
    }
  }

  /** Where no run was found twice, none is both cancelled and kept. */
  lemma PartsAreDisjoint(found: seq<Run>, cancelled: seq<Run>, kept: seq<Run>, r: Run)
    requires multiset(found) == multiset(cancelled) + multiset(kept) && NoDuplicates(found)
    requires r in kept
    ensures r !in cancelled
  {
    if r in cancelled {
      assert multiset(cancelled)[r] >= 1 && multiset(kept)[r] >= 1;
      CountOnce(found, r);
    }
  }

  /** The runs the script cancels, in the order in which it does: all that were found, or all but the
      newest of each group. */
  method Cancelled(found: seq<Run>, includeLast: bool) returns (cancelled: seq<Run>, ghost kept: seq<Run>)
    ensures multiset(found) == multiset(cancelled) + multiset(kept)
    ensures OldestFirst(cancelled)
    ensures includeLast ==> kept == []
    ensures !includeLast ==> DistinctKeys(kept) && forall r :: r in found ==> HasNewest(kept, r)
    ensures NoDuplicates(found) ==> forall r :: r in kept ==> r !in cancelled
    ensures var runs := StableSort.Sorted(found, OlderFirst());
      cancelled == if includeLast then runs else Superseded(runs)
  {
    SortedRuns(found);
    var runs := StableSort.Sorted(found, OlderFirst());
    kept := [];
    if !includeLast {
      CancelsAllButNewest(found);
      kept := Latest(runs);
      runs := SelectSuperseded(runs);
    }
    forall r | NoDuplicates(found) && r in kept
      ensures r !in runs
    {
      PartsAreDisjoint(found, runs, kept, r);
    }
    return runs, kept;
  }

  /** Of two runs of one group the one created first is cancelled, in whatever order they were found. */
  lemma OlderOfTwoIsCancelled(o: Run, n: Run)
    requires Key(o) == Key(n) && !NotAfter(n.createdAt, o.createdAt)
    ensures Superseded(StableSort.Sorted([o, n], OlderFirst())) == [o]
    ensures Superseded(StableSort.Sorted([n, o], OlderFirst())) == [o]
  {
    TextLeIsNotAfter(n.createdAt, o.createdAt);
    TextLeTotal(o.createdAt, n.createdAt);
    SortTwo(o, n, OlderFirst());
    FirstIsSuperseded(o, n);
  }

  lemma FirstIsSuperseded(o: Run, n: Run)
    requires Key(o) == Key(n)
    ensures Superseded([o, n]) == [o]
  {
    assert [o, n][1..] == [n] && [n][0] == n && HasKey([n], Key(o));
    assert Superseded([n]) == [];
  }

  lemma SortTwo(o: Run, n: Run, le: (Run, Run) -> bool)
    requires le(o, n) && !le(n, o)
    ensures StableSort.Sorted([o, n], le) == [o, n] == StableSort.Sorted([n, o], le)
  {
    assert [o, n][..1] == [o] && [n, o][..1] == [n];
    var none: seq<Run> := [];
    assert [o][..0] == none && [n][..0] == none;
    assert StableSort.Sorted(none, le) == none;
    assert StableSort.Sorted([o], le) == [o] && StableSort.Sorted([n], le) == [n];
    assert StableSort.Insert([n], o, le) == [o] + [n];
  }
}

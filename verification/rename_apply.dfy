/**
 * The renamer tab's execution: the conflict check that guards a plan, and
 * the three-phase application of the plan to the directory.
 */
module RenameApply {
  import opened Wrappers
  import opened Strings
  import opened Sequences
  import opened Directory
  import opened Patterns
  import opened RenamePlanning

  /** `(source, target)` pairs, as `compute_plan` returns them. */
  type Plan = seq<(string, string)>

  /** No two entries share a target. */
  predicate NoDuplicateTargets(plan: Plan) {
    forall i, j :: 0 <= i < j < |plan| ==> plan[i].1 != plan[j].1
  }

  /** `t` is the target of two different entries. */
  predicate Repeated(plan: Plan, t: string) {
    exists i, j :: 0 <= i < j < |plan| && plan[i].1 == t && plan[j].1 == t
  }

  /** Entry `i` renames onto a name that is already an entry of the directory. */
  predicate TargetTaken(plan: Plan, dir: Dir, i: int)
    requires 0 <= i < |plan|
  {
    plan[i].1 != plan[i].0 && plan[i].1 in dir
  }

  /** The error messages of `check_conflicts`. */
  datatype Conflict =
    /** "Duplicate targets in plan: ...", listing every repeated target once, sorted. */
    | DuplicateTargets(targets: seq<string>)
    /** "Target exists already: ...", once per offending entry. */
    | TargetExists(target: string)

  function Targets(plan: Plan): (ts: set<string>)
    ensures forall t :: t in ts <==> exists i :: 0 <= i < |plan| && plan[i].1 == t
  {
    set i | 0 <= i < |plan| :: plan[i].1
  }

  /** The `dupes` list: each entry whose target an earlier entry already has, in plan order. */
  function Dupes(plan: Plan): seq<string>
  {
    if |plan| == 0 then []
    else
      var prefix := plan[..|plan| - 1];
      var t := plan[|plan| - 1].1;
      Dupes(prefix) + if t in Targets(prefix) then [t] else []
  }

  lemma {:induction false} DupesAreRepeated(plan: Plan)
    ensures forall t :: t in Dupes(plan) <==> Repeated(plan, t)
  {
    if |plan| > 0 {
      DupesAreRepeated(plan[..|plan| - 1]);
      RepeatedLast(plan);
    }
  }

  /** A target repeats in a plan when it repeats before the last entry or the last entry repeats it. */
  lemma RepeatedLast(plan: Plan)
    requires |plan| > 0
    ensures var prefix := plan[..|plan| - 1];
      forall t :: Repeated(plan, t) <==> Repeated(prefix, t) || (t == plan[|plan| - 1].1 && t in Targets(prefix))
  {
    var n := |plan| - 1;
    var prefix := plan[..n];
    assert forall i :: 0 <= i < n ==> prefix[i] == plan[i];
    forall t | Repeated(plan, t)
      ensures Repeated(prefix, t) || (t == plan[n].1 && t in Targets(prefix))
    {
      var i, j :| 0 <= i < j < |plan| && plan[i].1 == t && plan[j].1 == t;
      if j < n {
        assert prefix[i].1 == t && prefix[j].1 == t;
      } else {
        assert prefix[i].1 == t;
      }
    }
    forall t | t == plan[n].1 && t in Targets(prefix)
      ensures Repeated(plan, t)
    {
      var i :| 0 <= i < |prefix| && prefix[i].1 == t;
      assert plan[i].1 == t;
    }
    forall t | Repeated(prefix, t)
      ensures Repeated(plan, t)
    {
      var i, j :| 0 <= i < j < |prefix| && prefix[i].1 == t && prefix[j].1 == t;
      assert plan[i].1 == t && plan[j].1 == t;
    }
  }

  /** The distinct elements of `xs` in first-seen order. */
  function Unique(xs: seq<string>): (r: seq<string>)
    ensures Distinct(r)
    ensures forall x :: x in r <==> x in xs
  {
    if |xs| == 0 then []
    else
      var prefix := xs[..|xs| - 1];
      var last := xs[|xs| - 1];
      assert xs == prefix + [last];
      var r := Unique(prefix);
      if last in r then r else r + [last]
  }

  lemma StrLeIsTotalPreorder()
    ensures TotalPreorder(StrLe)
  {
    forall a: string, b: string
      ensures StrLe(a, b) || StrLe(b, a)
    {
      StrLtTotal(a, b);
    }
    forall a: string, b: string, c: string | StrLe(a, b) && StrLe(b, c)
      ensures StrLe(a, c)
    {
      if StrLt(a, b) && StrLt(b, c) {
        StrLtTransitive(a, b, c);
      }
    }
  }

  /** `sorted(set(xs))`: the distinct elements in strictly ascending order. */
  function SortedSet(xs: seq<string>): (r: seq<string>)
    ensures forall x :: x in r <==> x in xs
    ensures forall i, j :: 0 <= i < j < |r| ==> StrLt(r[i], r[j])
  {
    var u := Unique(xs);
    var r := Sort(u, StrLe);
    StrLeIsTotalPreorder();
    SortSorted(u, StrLe);
    DistinctPermutation(u, r);
    assert forall x :: x in r <==> x in multiset(u);
    r
  }

  /** One "Target exists already" message per offending entry, in plan order. */
  function ExistsErrors(plan: Plan, dir: Dir): seq<Conflict>
  {
    if |plan| == 0 then []
    else
      var n := |plan| - 1;
      ExistsErrors(plan[..n], dir) + if TargetTaken(plan, dir, n) then [TargetExists(plan[n].1)] else []
  }

  function TakenIndices(plan: Plan, dir: Dir): set<int> {
    set i | 0 <= i < |plan| && TargetTaken(plan, dir, i)
  }

  /**
   * `errs` is the list of "exists" messages for the offending entries in plan
   * order: `idx` runs strictly upward through exactly the offending indices,
   * and message k names the target of entry `idx[k]`.
   */
  ghost predicate OffendersInOrder(plan: Plan, dir: Dir, errs: seq<Conflict>, idx: seq<int>) {
    && |idx| == |errs|
    && (forall k :: 0 <= k < |idx| ==>
          0 <= idx[k] < |plan| && TargetTaken(plan, dir, idx[k]) && errs[k] == TargetExists(plan[idx[k]].1))
    && (forall k, l :: 0 <= k < l < |idx| ==> idx[k] < idx[l])
    && (forall i :: 0 <= i < |plan| && TargetTaken(plan, dir, i) ==> i in idx)
  }

  /**
   * The messages are exactly the offending entries' targets, one message
   * for each offending entry, in plan order.
   */
  lemma ExistsErrorsSpec(plan: Plan, dir: Dir)
    ensures var errs := ExistsErrors(plan, dir);
      && |errs| == |TakenIndices(plan, dir)|
      && (forall e :: e in errs ==> e.TargetExists? && exists i :: 0 <= i < |plan| && TargetTaken(plan, dir, i) && plan[i].1 == e.target)
      && (forall i :: 0 <= i < |plan| && TargetTaken(plan, dir, i) ==> TargetExists(plan[i].1) in errs)
      && (exists idx :: OffendersInOrder(plan, dir, errs, idx))
  {
    ExistsErrorsCount(plan, dir);
    ExistsErrorsSound(plan, dir);
    ExistsErrorsComplete(plan, dir);
    var idx := ExistsErrorsIndexed(plan, dir);
  }

  lemma {:induction false} ExistsErrorsIndexed(plan: Plan, dir: Dir) returns (idx: seq<int>)
    ensures OffendersInOrder(plan, dir, ExistsErrors(plan, dir), idx)
  {
    if |plan| == 0 {
      idx := [];
    } else {
      var n := |plan| - 1;
      var prefix := plan[..n];
      var before := ExistsErrorsIndexed(prefix, dir);
      idx := OffendersStep(plan, dir, ExistsErrors(prefix, dir), before);
    }
  }

  /** The last entry's message, if any, goes after the prefix's, with index n. */
  lemma OffendersStep(plan: Plan, dir: Dir, errs: seq<Conflict>, before: seq<int>) returns (idx: seq<int>)
    requires |plan| > 0
    requires OffendersInOrder(plan[..|plan| - 1], dir, errs, before)
    ensures var n := |plan| - 1;
      OffendersInOrder(plan, dir, errs + if TargetTaken(plan, dir, n) then [TargetExists(plan[n].1)] else [], idx)
  {
    var n := |plan| - 1;
    var prefix := plan[..n];
    forall k | 0 <= k < |before|
      ensures 0 <= before[k] < n && TargetTaken(plan, dir, before[k]) && errs[k] == TargetExists(plan[before[k]].1)
    {
      assert prefix[before[k]] == plan[before[k]];
    }
    forall i | 0 <= i < n && TargetTaken(plan, dir, i)
      ensures i in before
    {
      assert prefix[i] == plan[i];
      assert TargetTaken(prefix, dir, i);
    }
    if TargetTaken(plan, dir, n) {
      idx := before + [n];
      var all := errs + [TargetExists(plan[n].1)];
      assert all[|errs|] == TargetExists(plan[n].1);
      forall k | 0 <= k < |before|
        ensures idx[k] == before[k] && all[k] == errs[k]
      {
      }
    } else {
      idx := before;
      assert errs + [] == errs;
    }
  }

  /** Whether an entry's target is taken does not depend on the entries after it. */
  lemma TakenInPrefix(plan: Plan, dir: Dir, n: nat)
    requires n <= |plan|
    ensures forall i :: 0 <= i < n ==> (TargetTaken(plan[..n], dir, i) <==> TargetTaken(plan, dir, i))
  {
    assert forall i :: 0 <= i < n ==> plan[..n][i] == plan[i];
  }

  lemma {:induction false} ExistsErrorsCount(plan: Plan, dir: Dir)
    ensures |ExistsErrors(plan, dir)| == |TakenIndices(plan, dir)|
  {
    if |plan| > 0 {
      var n := |plan| - 1;
      var prefix := plan[..n];
      ExistsErrorsCount(prefix, dir);
      TakenInPrefix(plan, dir, n);
      if TargetTaken(plan, dir, n) {
        assert TakenIndices(plan, dir) == TakenIndices(prefix, dir) + {n};
      } else {
        assert TakenIndices(plan, dir) == TakenIndices(prefix, dir);
      }
    }
  }

  lemma {:induction false} ExistsErrorsSound(plan: Plan, dir: Dir)
    ensures forall e :: e in ExistsErrors(plan, dir) ==>
      e.TargetExists? && exists i :: 0 <= i < |plan| && TargetTaken(plan, dir, i) && plan[i].1 == e.target
  {
    if |plan| > 0 {
      var n := |plan| - 1;
      var prefix := plan[..n];
      ExistsErrorsSound(prefix, dir);
      TakenInPrefix(plan, dir, n);
      forall e | e in ExistsErrors(plan, dir)
        ensures e.TargetExists? && exists i :: 0 <= i < |plan| && TargetTaken(plan, dir, i) && plan[i].1 == e.target
      {
        if e in ExistsErrors(prefix, dir) {
          var i :| 0 <= i < |prefix| && TargetTaken(prefix, dir, i) && prefix[i].1 == e.target;
          assert plan[i] == prefix[i];
        }
      }
    }
  }

  lemma {:induction false} ExistsErrorsComplete(plan: Plan, dir: Dir)
    ensures forall i :: 0 <= i < |plan| && TargetTaken(plan, dir, i) ==> TargetExists(plan[i].1) in ExistsErrors(plan, dir)
  {
    if |plan| > 0 {
      var n := |plan| - 1;
      var prefix := plan[..n];
      ExistsErrorsComplete(prefix, dir);
      TakenInPrefix(plan, dir, n);
      forall i | 0 <= i < |plan| && TargetTaken(plan, dir, i)
        ensures TargetExists(plan[i].1) in ExistsErrors(plan, dir)
      {
        if i < n {
          assert prefix[i] == plan[i];
        }
      }
    }
  }

  /**
   * `check_conflicts`: a single message naming all repeated targets, then
   * one message per entry whose target is a current directory entry (every
   * listed name counts, other plan sources included). `dir` is the directory
   * as `os.listdir` sees it.
   */
  function CheckConflicts(plan: Plan, dir: Dir): (bool, seq<Conflict>)
  {
    var dupes := Dupes(plan);
    var errors := (if |dupes| > 0 then [DuplicateTargets(SortedSet(dupes))] else []) + ExistsErrors(plan, dir);
    (|errors| == 0, errors)
  }

  /**
   * The check passes exactly when no target repeats and no entry renames
   * onto an existing name other than itself.
   */
  lemma CheckConflictsOk(plan: Plan, dir: Dir)
    ensures CheckConflicts(plan, dir).0 <==>
      NoDuplicateTargets(plan) && forall i :: 0 <= i < |plan| ==> !TargetTaken(plan, dir, i)
  {
    DupesAreRepeated(plan);
    ExistsErrorsSound(plan, dir);
    ExistsErrorsComplete(plan, dir);
    if !NoDuplicateTargets(plan) {
      var i, j :| 0 <= i < j < |plan| && plan[i].1 == plan[j].1;
      assert Repeated(plan, plan[i].1);
    }
    if |Dupes(plan)| > 0 {
      assert Dupes(plan)[0] in Dupes(plan);
    }
    if exists i :: 0 <= i < |plan| && TargetTaken(plan, dir, i) {
      var i :| 0 <= i < |plan| && TargetTaken(plan, dir, i);
      assert TargetExists(plan[i].1) in ExistsErrors(plan, dir);
    }
    if |ExistsErrors(plan, dir)| > 0 {
      assert ExistsErrors(plan, dir)[0] in ExistsErrors(plan, dir);
    }
  }

  /**
   * The leading message: present exactly when some target repeats, naming
   * each repeated target once, in ascending order.
   */
  lemma CheckConflictsDuplicates(plan: Plan, dir: Dir)
    ensures var errors := CheckConflicts(plan, dir).1;
      && (|errors| > 0 && errors[0].DuplicateTargets? <==> !NoDuplicateTargets(plan))
      && (|errors| > 0 && errors[0].DuplicateTargets? ==>
            && (forall t :: t in errors[0].targets <==> Repeated(plan, t))
            && (forall i, j :: 0 <= i < j < |errors[0].targets| ==> StrLt(errors[0].targets[i], errors[0].targets[j])))
  {
    DupesAreRepeated(plan);
    ExistsErrorsSound(plan, dir);
    ExistsErrorsComplete(plan, dir);
    if !NoDuplicateTargets(plan) {
      var i, j :| 0 <= i < j < |plan| && plan[i].1 == plan[j].1;
      assert Repeated(plan, plan[i].1);
    }
    if |Dupes(plan)| > 0 {
      assert Dupes(plan)[0] in Dupes(plan);
    } else if |ExistsErrors(plan, dir)| > 0 {
      assert ExistsErrors(plan, dir)[0] in ExistsErrors(plan, dir);
    }
  }

  /** `dupes` is non-empty exactly when some target repeats. */
  lemma DupesIffRepeats(plan: Plan)
    ensures |Dupes(plan)| > 0 <==> !NoDuplicateTargets(plan)
  {
    DupesAreRepeated(plan);
    if !NoDuplicateTargets(plan) {
      var i, j :| 0 <= i < j < |plan| && plan[i].1 == plan[j].1;
      assert Repeated(plan, plan[i].1);
    }
    if |Dupes(plan)| > 0 {
      assert Dupes(plan)[0] in Dupes(plan);
    }
  }

  /**
   * After the optional duplicate message come exactly the "exists" messages:
   * one per offending entry, each naming that entry's target, in plan order.
   */
  lemma CheckConflictsExisting(plan: Plan, dir: Dir)
    ensures var errors := CheckConflicts(plan, dir).1;
      var k := if NoDuplicateTargets(plan) then 0 else 1;
      && |errors| == k + |TakenIndices(plan, dir)|
      && (forall m :: k <= m < |errors| ==> errors[m].TargetExists?)
      && (forall i :: 0 <= i < |plan| && TargetTaken(plan, dir, i) ==> TargetExists(plan[i].1) in errors[k..])
      && (exists idx :: OffendersInOrder(plan, dir, errors[k..], idx))
  {
    DupesIffRepeats(plan);
    ExistsErrorsSpec(plan, dir);
    var errors := CheckConflicts(plan, dir).1;
    var k := if NoDuplicateTargets(plan) then 0 else 1;
    var exists_ := ExistsErrors(plan, dir);
    assert errors[k..] == exists_;
    forall m | k <= m < |errors|
      ensures errors[m].TargetExists?
    {
      assert errors[m] == exists_[m - k];
      assert exists_[m - k] in exists_;
    }
  }

  /** The suffix of the phase-one temporary names. */
  const TempSuffix := ".__renametemp__"

  /** `apply_plan` stops at the first `os.replace` whose source is gone. */
  datatype ApplyError = MissingSource(name: string)

  /** Names of the directory at least as long as `t`. */
  function LongEntries(dir: Dir, t: string): set<string> {
    set k | k in dir && |k| >= |t|
  }

  /** Phase one's name search: append `"_x"` while the name is taken. */
  function FreshTemp(dir: Dir, t: string): (r: string)
    ensures r !in dir
    ensures |r| >= |t| && r[..|t|] == t
    ensures t !in dir ==> r == t
    decreases |LongEntries(dir, t)|
  {
    if t !in dir then t
    else
      var next := t + "_x";
      assert LongEntries(dir, next) <= LongEntries(dir, t) - {t};
      SubsetSize(LongEntries(dir, next), LongEntries(dir, t) - {t});
      var r := FreshTemp(dir, next);
      assert r[..|t|] == next[..|t|];
      r
  }

  /**
   * `os.replace(from, to)` on a directory: the entry under `from` is now
   * under `to`, replacing whatever was there; fails when `from` is missing.
   */
  function Replace(dir: Dir, from: string, to: string): (r: Result<Dir, ApplyError>)
    ensures r.Failure? <==> from !in dir
    ensures r.Success? ==> to in r.value && r.value[to] == dir[from]
    ensures r.Success? && from != to ==> from !in r.value
    ensures r.Success? ==> forall k :: k != from && k != to ==> (k in r.value <==> k in dir) && (k in dir ==> r.value[k] == dir[k])
  {
    if from !in dir then Failure(MissingSource(from))
    else if from == to then Success(dir)
    else Success((dir - {from})[to := dir[from]])
  }

  /** `plan_map`: the name is the source of some entry. */
  predicate IsSource(plan: Plan, name: string) {
    exists i :: 0 <= i < |plan| && plan[i].0 == name
  }

  /**
   * Phase one, from entry `i` on: each target that is also the source of some
   * entry (and not its own entry's source) is moved aside to a fresh
   * temporary name; the temporaries are remembered with their final names.
   */
  function TempPhase(dir: Dir, plan: Plan, i: nat, temps: seq<(string, string)>): Result<(Dir, seq<(string, string)>), ApplyError>
    requires i <= |plan|
    decreases |plan| - i
  {
    if i == |plan| then Success((dir, temps))
    else
      var (src, tgt) := plan[i];
      if IsSource(plan, tgt) && tgt != src then
        var tmp := FreshTemp(dir, tgt + TempSuffix);
        match Replace(dir, tgt, tmp)
        case Failure(e) => Failure(e)
        case Success(d) => TempPhase(d, plan, i + 1, temps + [(tmp, tgt)])
      else TempPhase(dir, plan, i + 1, temps)
  }

  /** Phase two: every entry's source is moved onto its target, skipping entries that keep their name. */
  function MovePhase(dir: Dir, plan: Plan): Result<Dir, ApplyError>
    decreases |plan|
  {
    if |plan| == 0 then Success(dir)
    else
      var (src, tgt) := plan[0];
      if src == tgt then MovePhase(dir, plan[1..])
      else
        match Replace(dir, src, tgt)
        case Failure(e) => Failure(e)
        case Success(d) => MovePhase(d, plan[1..])
  }

  /** Phase three: each temporary that still exists is moved onto its final name. */
  function RestorePhase(dir: Dir, temps: seq<(string, string)>): Result<Dir, ApplyError>
    decreases |temps|
  {
    if |temps| == 0 then Success(dir)
    else
      var (tmp, final) := temps[0];
      if tmp in dir then
        match Replace(dir, tmp, final)
        case Failure(e) => Failure(e)
        case Success(d) => RestorePhase(d, temps[1..])
      else RestorePhase(dir, temps[1..])
  }

  /** `apply_plan`: the three phases in order; the first failing `os.replace` aborts the rest. */
  function ApplyPlan(dir: Dir, plan: Plan): Result<Dir, ApplyError>
  {
    match TempPhase(dir, plan, 0, [])
    case Failure(e) => Failure(e)
    case Success((d, temps)) =>
      match MovePhase(d, plan)
      case Failure(e) => Failure(e)
      case Success(d2) => RestorePhase(d2, temps)
  }

  /** Every entry's source is an entry of the directory. */
  predicate SourcesPresent(plan: Plan, dir: Dir) {
    forall i :: 0 <= i < |plan| ==> plan[i].0 in dir
  }

  predicate DistinctSources(plan: Plan) {
    forall i, j :: 0 <= i < j < |plan| ==> plan[i].0 != plan[j].0
  }

  /** The source of an entry that actually changes name. */
  predicate MovedSource(plan: Plan, name: string) {
    exists i :: 0 <= i < |plan| && plan[i].0 == name && plan[i].1 != name
  }

  /**
   * `r` is `dir` after every entry of `plan` is renamed: each target holds its
   * source's entry, every moved source is gone, and every other entry is as it was.
   */
  predicate Renamed(dir: Dir, plan: Plan, r: Dir)
    requires SourcesPresent(plan, dir)
  {
    TargetsFilled(dir, plan, r) && SourcesGone(plan, r) && OthersKept(dir, plan, r) && NothingElse(dir, plan, r)
  }

  predicate TargetsFilled(dir: Dir, plan: Plan, r: Dir)
    requires SourcesPresent(plan, dir)
  {
    forall i :: 0 <= i < |plan| ==> plan[i].1 in r && r[plan[i].1] == dir[plan[i].0]
  }

  predicate SourcesGone(plan: Plan, r: Dir) {
    forall i :: 0 <= i < |plan| && plan[i].1 != plan[i].0 ==> plan[i].0 !in r
  }

  predicate OthersKept(dir: Dir, plan: Plan, r: Dir) {
    forall k :: k in dir && !MovedSource(plan, k) ==> k in r && r[k] == dir[k]
  }

  predicate NothingElse(dir: Dir, plan: Plan, r: Dir) {
    forall k :: k in r ==> k in dir || k in Targets(plan)
  }

  /**
   * When nothing is taken, phase one moves nothing aside: a target that is
   * another entry's source is a listed name and so would have been reported.
   */
  lemma {:induction false} TempPhaseIdle(dir: Dir, plan: Plan, i: nat)
    requires i <= |plan|
    requires SourcesPresent(plan, dir)
    requires forall j :: 0 <= j < |plan| ==> !TargetTaken(plan, dir, j)
    ensures TempPhase(dir, plan, i, []) == Success((dir, []))
    decreases |plan| - i
  {
    if i < |plan| {
      if IsSource(plan, plan[i].1) {
        var j :| 0 <= j < |plan| && plan[j].0 == plan[i].1;
        assert !TargetTaken(plan, dir, i);
      }
      TempPhaseIdle(dir, plan, i + 1);
    }
  }

  /**
   * Phase two performs the renaming when the sources are distinct and present,
   * the targets distinct, and each moved target not yet an entry.
   */
  lemma {:induction false} MovePhaseRenames(dir: Dir, plan: Plan)
    requires SourcesPresent(plan, dir)
    requires DistinctSources(plan)
    requires NoDuplicateTargets(plan)
    requires forall i :: 0 <= i < |plan| ==> !TargetTaken(plan, dir, i)
    ensures MovePhase(dir, plan).Success?
    ensures Renamed(dir, plan, MovePhase(dir, plan).value)
    decreases |plan|
  {
    if |plan| > 0 {
      var (src, tgt) := plan[0];
      var rest := plan[1..];
      var d := if src == tgt then dir else (dir - {src})[tgt := dir[src]];
      assert Replace(dir, src, tgt) == Success(d);
      forall i | 0 <= i < |rest|
        ensures rest[i].0 in d
        ensures !TargetTaken(rest, d, i)
      {
        assert rest[i] == plan[i + 1];
        assert !TargetTaken(plan, dir, i + 1);
      }
      assert DistinctSources(rest) by {
        forall i, j | 0 <= i < j < |rest| ensures rest[i].0 != rest[j].0 {
          assert rest[i] == plan[i + 1] && rest[j] == plan[j + 1];
        }
      }
      assert NoDuplicateTargets(rest) by {
        forall i, j | 0 <= i < j < |rest| ensures rest[i].1 != rest[j].1 {
          assert rest[i] == plan[i + 1] && rest[j] == plan[j + 1];
        }
      }
      MovePhaseRenames(d, rest);
      var r := MovePhase(d, rest).value;
      assert MovePhase(dir, plan) == Success(r);
      RenamedStep(dir, plan, d, r);
    }
  }

  /** One step of phase two composed with the renaming of the remaining entries. */
  lemma RenamedStep(dir: Dir, plan: Plan, d: Dir, r: Dir)
    requires |plan| > 0
    requires SourcesPresent(plan, dir)
    requires DistinctSources(plan)
    requires NoDuplicateTargets(plan)
    requires forall i :: 0 <= i < |plan| ==> !TargetTaken(plan, dir, i)
    requires d == if plan[0].0 == plan[0].1 then dir else (dir - {plan[0].0})[plan[0].1 := dir[plan[0].0]]
    requires SourcesPresent(plan[1..], d)
    requires Renamed(d, plan[1..], r)
    ensures Renamed(dir, plan, r)
  {
    StepTargetsFilled(dir, plan, d, r);
    StepSourcesGone(dir, plan, d, r);
    StepOthersKept(dir, plan, d, r);
    StepNothingElse(dir, plan, d, r);
  }

  lemma StepTargetsFilled(dir: Dir, plan: Plan, d: Dir, r: Dir)
    requires |plan| > 0
    requires SourcesPresent(plan, dir)
    requires DistinctSources(plan)
    requires NoDuplicateTargets(plan)
    requires forall i :: 0 <= i < |plan| ==> !TargetTaken(plan, dir, i)
    requires d == if plan[0].0 == plan[0].1 then dir else (dir - {plan[0].0})[plan[0].1 := dir[plan[0].0]]
    requires SourcesPresent(plan[1..], d)
    requires TargetsFilled(d, plan[1..], r) && OthersKept(d, plan[1..], r)
    ensures TargetsFilled(dir, plan, r)
  {
    var (src, tgt) := plan[0];
    var rest := plan[1..];
    forall i | 0 <= i < |plan|
      ensures plan[i].1 in r && r[plan[i].1] == dir[plan[i].0]
    {
      assert !TargetTaken(plan, dir, 0);
      if i == 0 {
        // no later entry moves the first target away
        assert !MovedSource(rest, tgt) by {
          forall j | 0 <= j < |rest| ensures rest[j].0 != tgt {
            assert rest[j] == plan[j + 1];
            assert plan[j + 1].0 in dir && plan[0].0 != plan[j + 1].0;
          }
        }
      } else {
        assert rest[i - 1] == plan[i];
        assert plan[i].0 in dir && plan[0].0 != plan[i].0;
      }
    }
  }

  lemma StepSourcesGone(dir: Dir, plan: Plan, d: Dir, r: Dir)
    requires |plan| > 0
    requires SourcesPresent(plan, dir)
    requires DistinctSources(plan)
    requires NoDuplicateTargets(plan)
    requires forall i :: 0 <= i < |plan| ==> !TargetTaken(plan, dir, i)
    requires d == if plan[0].0 == plan[0].1 then dir else (dir - {plan[0].0})[plan[0].1 := dir[plan[0].0]]
    requires SourcesGone(plan[1..], r) && NothingElse(d, plan[1..], r)
    ensures SourcesGone(plan, r)
  {
    var (src, tgt) := plan[0];
    var rest := plan[1..];
    forall i | 0 <= i < |plan| && plan[i].1 != plan[i].0
      ensures plan[i].0 !in r
    {
      if i == 0 {
        assert src !in d;
        assert src !in Targets(rest) by {
          forall j | 0 <= j < |rest| ensures rest[j].1 != src {
            assert rest[j] == plan[j + 1];
            assert !TargetTaken(plan, dir, j + 1);
          }
        }
      } else {
        assert rest[i - 1] == plan[i];
      }
    }
  }

  lemma StepOthersKept(dir: Dir, plan: Plan, d: Dir, r: Dir)
    requires |plan| > 0
    requires SourcesPresent(plan, dir)
    requires DistinctSources(plan)
    requires NoDuplicateTargets(plan)
    requires forall i :: 0 <= i < |plan| ==> !TargetTaken(plan, dir, i)
    requires d == if plan[0].0 == plan[0].1 then dir else (dir - {plan[0].0})[plan[0].1 := dir[plan[0].0]]
    requires OthersKept(d, plan[1..], r)
    ensures OthersKept(dir, plan, r)
  {
    var (src, tgt) := plan[0];
    var rest := plan[1..];
    forall k | k in dir && !MovedSource(plan, k)
      ensures k in r && r[k] == dir[k]
    {
      assert !TargetTaken(plan, dir, 0);
      assert plan[0].0 == k ==> plan[0].1 == k;
      assert !MovedSource(rest, k) by {
        forall j | 0 <= j < |rest| && rest[j].0 == k ensures rest[j].1 == k {
          assert rest[j] == plan[j + 1];
        }
      }
    }
  }

  lemma StepNothingElse(dir: Dir, plan: Plan, d: Dir, r: Dir)
    requires |plan| > 0
    requires SourcesPresent(plan, dir)
    requires DistinctSources(plan)
    requires NoDuplicateTargets(plan)
    requires forall i :: 0 <= i < |plan| ==> !TargetTaken(plan, dir, i)
    requires d == if plan[0].0 == plan[0].1 then dir else (dir - {plan[0].0})[plan[0].1 := dir[plan[0].0]]
    requires NothingElse(d, plan[1..], r)
    ensures NothingElse(dir, plan, r)
  {
    var rest := plan[1..];
    forall k | k in r
      ensures k in dir || k in Targets(plan)
    {
      if k in Targets(rest) {
        var j :| 0 <= j < |rest| && rest[j].1 == k;
        assert plan[j + 1].1 == k;
      }
    }
  }

  /**
   * Under a passing conflict check, with the plan's sources distinct and all
   * present, `apply_plan` succeeds and performs exactly the renaming.
   */
  lemma ApplyPlanCorrect(dir: Dir, plan: Plan)
    requires SourcesPresent(plan, dir)
    requires DistinctSources(plan)
    requires CheckConflicts(plan, dir).0
    ensures ApplyPlan(dir, plan).Success?
    ensures Renamed(dir, plan, ApplyPlan(dir, plan).value)
  {
    CheckConflictsOk(plan, dir);
    TempPhaseIdle(dir, plan, 0);
    MovePhaseRenames(dir, plan);
  }

  /**
   * A two-cycle `a -> b, b -> a` is refused by the conflict check (each target
   * is a listed name), and `apply_plan` run on it anyway moves both files
   * aside in phase one and then fails on the first move of phase two.
   */
  lemma SwapRefusedAndUnsafe(dir: Dir, a: string, b: string)
    requires a != b && a in dir && b in dir
    ensures !CheckConflicts([(a, b), (b, a)], dir).0
    ensures ApplyPlan(dir, [(a, b), (b, a)]) == Failure(MissingSource(a))
  {
    var plan := [(a, b), (b, a)];
    CheckConflictsOk(plan, dir);
    assert TargetTaken(plan, dir, 0);
    SwapTempPhase(dir, a, b);
    var d := TempPhase(dir, plan, 0, []).value.0;
    assert Replace(d, a, b) == Failure(MissingSource(a));
  }

  /** Phase one of the swap moves both files aside, so `a` is gone when phase two starts. */
  lemma SwapTempPhase(dir: Dir, a: string, b: string)
    requires a != b && a in dir && b in dir
    ensures var r := TempPhase(dir, [(a, b), (b, a)], 0, []);
      r.Success? && a !in r.value.0
  {
    var plan := [(a, b), (b, a)];
    assert plan[0] == (a, b) && plan[1] == (b, a);
    assert IsSource(plan, b) && IsSource(plan, a);
    var t1 := FreshTemp(dir, b + TempSuffix);
    var d1 := Replace(dir, b, t1).value;
    assert a in d1;
    var t2 := FreshTemp(d1, a + TempSuffix);
    var d2 := Replace(d1, a, t2).value;
    var temps := [(t1, b), (t2, a)];
    assert t2 != a by {
      assert |t2| >= |a + TempSuffix| > |a|;
    }
    assert a !in d2;
    assert TempPhase(d2, plan, 2, temps) == Success((d2, temps));
    assert TempPhase(d1, plan, 1, [(t1, b)]) == TempPhase(d2, plan, 2, temps) by {
      assert [(t1, b)] + [(t2, a)] == temps;
    }
    assert TempPhase(dir, plan, 0, []) == TempPhase(d1, plan, 1, [(t1, b)]) by {
      assert [] + [(t1, b)] == [(t1, b)];
    }
  }

  /** What the rename button reports. */
  datatype Outcome =
    | NothingToRename
    | ConflictsDetected(errors: seq<Conflict>)
    | Done(plan: Plan, dir: Dir)
    | Failed(error: ApplyError)

  /**
   * The rename worker: scan the listed regular files, compute the plan, stop
   * when it is empty or the conflict check fails, otherwise apply it.
   */
  function RenameAction(dir: Dir, listing: seq<string>, patt: Pattern, template: seq<Piece>,
                        useParsed: bool, startSeason: int, startEpisode: int): Outcome
  {
    var files := ScanFiles(dir, listing);
    var plan := ComputePlan(files, patt, template, useParsed, startSeason, startEpisode);
    if |plan| == 0 then NothingToRename
    else
      var (ok, errors) := CheckConflicts(plan, dir);
      if !ok then ConflictsDetected(errors)
      else
        match ApplyPlan(dir, plan)
        case Failure(e) => Failed(e)
        case Success(d) => Done(plan, d)
  }

  /**
   * For a consistent listing the worker never fails inside `apply_plan`: it
   * reports nothing to rename exactly when no regular file parses, conflicts
   * exactly when the check fails, and otherwise the renamed directory.
   */
  lemma RenameActionSound(dir: Dir, listing: seq<string>, patt: Pattern, template: seq<Piece>,
                          useParsed: bool, startSeason: int, startEpisode: int)
    requires IsListing(listing, dir)
    ensures var files := ScanFiles(dir, listing);
      var plan := ComputePlan(files, patt, template, useParsed, startSeason, startEpisode);
      var out := RenameAction(dir, listing, patt, template, useParsed, startSeason, startEpisode);
      && !out.Failed?
      && (out.NothingToRename? <==> forall f :: f in files ==> ParseIdentifier(f, patt).None?)
      && (out.ConflictsDetected? <==> |plan| > 0 && !CheckConflicts(plan, dir).0)
      && (out.Done? ==> out.plan == plan && SourcesPresent(plan, dir) && Renamed(dir, plan, out.dir))
  {
    var files := ScanFiles(dir, listing);
    var plan := ComputePlan(files, patt, template, useParsed, startSeason, startEpisode);
    ComputePlanEmpty(files, patt, template, useParsed, startSeason, startEpisode);
    ComputePlanSources(files, patt, template, useParsed, startSeason, startEpisode);
    assert SourcesPresent(plan, dir) by {
      forall i | 0 <= i < |plan| ensures plan[i].0 in dir {
        assert Sources(plan)[i] in Sources(plan);
      }
    }
    assert DistinctSources(plan) by {
      forall i, j | 0 <= i < j < |plan| ensures plan[i].0 != plan[j].0 {
        assert Sources(plan)[i] != Sources(plan)[j];
      }
    }
    if |plan| > 0 && CheckConflicts(plan, dir).0 {
      ApplyPlanCorrect(dir, plan);
    }
  }
}

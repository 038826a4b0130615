/** Typed rule selection under a byte budget
    (src/cognition/selector_eval.cpp). */
module Selection {
  import opened Values
  import opened Ordering

  datatype Priority = P0Core | P1Protected | P2Required | P3Supporting | P4OnDemand

  datatype Selectors = Selectors(
    explicitIds: seq<Bytes>,
    phases: seq<Bytes>,
    risk: seq<Bytes>,
    repositories: seq<Bytes>,
    pathPrefixes: seq<Bytes>,
    languages: seq<Bytes>,
    boundaryKinds: seq<Bytes>)

  datatype Rule = Rule(
    id: Bytes,
    active: bool,
    priority: Priority,
    selectors: Selectors,
    controls: seq<Bytes>,
    path: Bytes)

  datatype Task = Task(
    phase: Bytes,
    risk: Bytes,
    repository: Bytes,
    changedPaths: seq<Bytes>,
    languages: seq<Bytes>,
    explicitIds: seq<Bytes>,
    objective: Bytes)

  datatype Verdict = Applicable | NotApplicable | Unresolved

  datatype Readiness = ReadyForPhase | NeedsEvidence | BudgetInsufficient

  datatype Budgets = Budgets(payloadMax: u64, sharePercent: u64)

  datatype Selection = Selection(
    verdicts: seq<Verdict>,
    protected: seq<Rule>,
    unresolved: seq<Rule>,
    candidates: seq<Rule>,
    readiness: Readiness)

  /** "all" */
  const ALL: Bytes := [97, 108, 108]
  const SLASH: byte := 47
  const SPACE: byte := 32

  // ---- Verdicts ----

  ghost predicate Shares(a: seq<Bytes>, b: seq<Bytes>)
  {
    exists x :: x in a && x in b
  }

  /** A changed path lies under a prefix when the prefix's own components lead
      it. A prefix written with a trailing separator matches nothing. */
  predicate PathUnder(path: Bytes, prefix: Bytes)
  {
    prefix != [] && prefix[|prefix| - 1] != SLASH && prefix + [SLASH] <= path
  }

  method PathUnderPrefix(path: Bytes, prefix: Bytes) returns (r: bool)
    ensures r <==> PathUnder(path, prefix)
  {
    var bound := |prefix|;
    if bound > 0 && prefix[bound - 1] == SLASH {
      bound := bound - 1;
    }
    r := bound > 0 && |path| > bound && path[..bound] == prefix && path[bound] == SLASH;
    assert PathUnder(path, prefix) ==> path[..|prefix|] == (prefix + [SLASH])[..|prefix|] == prefix;
    assert r ==> path[..bound + 1] == prefix + [SLASH];
  }

  /** What the source says it means: one trailing separator is trimmed, and the
      rest is a non-empty run of leading components. */
  predicate MeantUnder(path: Bytes, prefix: Bytes)
  {
    var trimmed := if prefix != [] && prefix[|prefix| - 1] == SLASH then prefix[..|prefix| - 1] else prefix;
    trimmed != [] && trimmed + [SLASH] <= path
  }

  /** The code answers as meant exactly when the prefix, if it is more than a
      separator and ends in one, does not lead the path. */
  lemma PathUnderAsMeantExactly(path: Bytes, prefix: Bytes)
    ensures (PathUnder(path, prefix) <==> MeantUnder(path, prefix))
            <==> !(1 < |prefix| && prefix[|prefix| - 1] == SLASH && prefix <= path)
  {
    if prefix != [] && prefix[|prefix| - 1] == SLASH {
      assert prefix[..|prefix| - 1] + [SLASH] == prefix;
    }
  }

  /** A rule scoped to "src/" misses the changed path "src/x". */
  lemma TrailingSlashMisses()
    ensures var prefix: Bytes := [115, 114, 99, SLASH];
            var path: Bytes := [115, 114, 99, SLASH, 120];
            MeantUnder(path, prefix) && !PathUnder(path, prefix)
  {
    var prefix: Bytes := [115, 114, 99, SLASH];
    var path: Bytes := [115, 114, 99, SLASH, 120];
    assert path[..4] == prefix && prefix[..3] + [SLASH] == prefix;
  }

  ghost predicate Matches(s: Selectors, task: Task)
  {
    && (s.phases == [] || ALL in s.phases || task.phase in s.phases)
    && (s.risk == [] || ALL in s.risk || task.risk in s.risk)
    && (s.repositories == [] || task.repository in s.repositories)
    && (s.pathPrefixes == [] ||
        exists prefix, path :: prefix in s.pathPrefixes && path in task.changedPaths && PathUnder(path, prefix))
    && (s.languages == [] || Shares(s.languages, task.languages))
  }

  ghost function VerdictOf(rule: Rule, task: Task): Verdict
  {
    if !rule.active && !rule.priority.P4OnDemand? then NotApplicable
    else if Shares(rule.selectors.explicitIds, task.explicitIds) then Applicable
    else if !Matches(rule.selectors, task) then NotApplicable
    else if rule.selectors.boundaryKinds != [] then Unresolved
    else Applicable
  }

  /** What each verdict means, dimension by dimension. A rule is live when it is
      active or on demand; a shared explicit id decides alone; otherwise every
      stated dimension must match, and a boundary kind leaves it open. */
  lemma VerdictExactly(rule: Rule, task: Task)
    ensures var s, verdict := rule.selectors, VerdictOf(rule, task);
            var live := rule.active || rule.priority == P4OnDemand;
            var named := exists i, j :: 0 <= i < |s.explicitIds| && 0 <= j < |task.explicitIds|
                                        && s.explicitIds[i] == task.explicitIds[j];
            var matched :=
              && (|s.phases| > 0 ==> Ascii("all") in s.phases || task.phase in s.phases)
              && (|s.risk| > 0 ==> Ascii("all") in s.risk || task.risk in s.risk)
              && (|s.repositories| > 0 ==> task.repository in s.repositories)
              && (|s.pathPrefixes| > 0 ==>
                    exists i, j :: 0 <= i < |s.pathPrefixes| && 0 <= j < |task.changedPaths|
                                   && PathUnder(task.changedPaths[j], s.pathPrefixes[i]))
              && (|s.languages| > 0 ==>
                    exists i, j :: 0 <= i < |s.languages| && 0 <= j < |task.languages|
                                   && s.languages[i] == task.languages[j]);
            && (verdict.Applicable? <==> live && (named || (matched && s.boundaryKinds == [])))
            && (verdict.Unresolved? <==> live && !named && matched && s.boundaryKinds != [])
            && (verdict.NotApplicable? <==> !live || (!named && !matched))
  {
    hide PathUnder;
    assert ALL == Ascii("all");
    SharesAt(rule.selectors.explicitIds, task.explicitIds);
    SharesAt(rule.selectors.languages, task.languages);
    hide Shares;
  }

  lemma SharesAt(a: seq<Bytes>, b: seq<Bytes>)
    ensures Shares(a, b) <==> exists i, j :: 0 <= i < |a| && 0 <= j < |b| && a[i] == b[j]
  {
    if x :| x in a && x in b {
      var i :| 0 <= i < |a| && a[i] == x;
      var j :| 0 <= j < |b| && b[j] == x;
      assert a[i] == b[j];
    }
    if i, j :| 0 <= i < |a| && 0 <= j < |b| && a[i] == b[j] {
      assert a[i] in a && a[i] in b;
    }
  }

  method AnyShared(a: seq<Bytes>, b: seq<Bytes>) returns (shared: bool)
    ensures shared <==> Shares(a, b)
  {
    shared := false;
    for i := 0 to |a|
      invariant shared <==> exists k :: 0 <= k < i && a[k] in b
    {
      if a[i] in b {
        shared := true;
      }
    }
  }

  method AnyPathUnder(prefixes: seq<Bytes>, paths: seq<Bytes>) returns (under: bool)
    ensures under <==> exists prefix, path :: prefix in prefixes && path in paths && PathUnder(path, prefix)
  {
    hide PathUnder;
    under := false;
    for i := 0 to |prefixes|
      invariant under <==> exists k, l :: 0 <= k < i && 0 <= l < |paths| && PathUnder(paths[l], prefixes[k])
    {
      for j := 0 to |paths|
        invariant under <==> (exists k, l :: 0 <= k < i && 0 <= l < |paths| && PathUnder(paths[l], prefixes[k]))
                             || exists l :: 0 <= l < j && PathUnder(paths[l], prefixes[i])
      {
        var r := PathUnderPrefix(paths[j], prefixes[i]);
        if r {
          under := true;
        }
      }
    }
  }

  method EvaluateRule(rule: Rule, task: Task) returns (verdict: Verdict)
    ensures verdict == VerdictOf(rule, task)
  {
    hide PathUnder, Shares;
    if !rule.active && !rule.priority.P4OnDemand? {
      return NotApplicable;
    }
    var s := rule.selectors;
    var triggered := AnyShared(s.explicitIds, task.explicitIds);
    if triggered {
      return Applicable;
    }
    if s.phases != [] && !(ALL in s.phases || task.phase in s.phases) {
      return NotApplicable;
    }
    if s.risk != [] && !(ALL in s.risk || task.risk in s.risk) {
      return NotApplicable;
    }
    if s.repositories != [] && task.repository !in s.repositories {
      return NotApplicable;
    }
    if s.pathPrefixes != [] {
      var under := AnyPathUnder(s.pathPrefixes, task.changedPaths);
      if !under {
        return NotApplicable;
      }
    }
    if s.languages != [] {
      var shared := AnyShared(s.languages, task.languages);
      if !shared {
        return NotApplicable;
      }
    }
    if s.boundaryKinds != [] {
      return Unresolved;
    }
    return Applicable;
  }

  // ---- Partition, ranking and sizes ----

  function Sum<T>(size: T -> nat, s: seq<T>): nat
  {
    if s == [] then 0 else Sum(size, s[..|s| - 1]) + size(s[|s| - 1])
  }

  predicate IsProtected(rule: Rule)
  {
    rule.priority.P0Core? || rule.priority.P1Protected? || rule.priority.P2Required?
  }

  ghost function Protected(rules: seq<Rule>, task: Task): seq<Rule>
  {
    Filter((r: Rule) => VerdictOf(r, task).Applicable? && IsProtected(r), rules)
  }

  ghost function CriticalUnknowns(rules: seq<Rule>, task: Task): seq<Rule>
  {
    Filter((r: Rule) => VerdictOf(r, task).Unresolved? && (r.priority.P0Core? || r.priority.P1Protected?), rules)
  }

  ghost function Supporting(rules: seq<Rule>, task: Task): seq<Rule>
  {
    Filter((r: Rule) => VerdictOf(r, task).Applicable? && !IsProtected(r), rules)
  }

  /** Bytes counted for naming a rule. */
  function HeadSize(rule: Rule): nat
  {
    |rule.id| + |rule.path| + 64
  }

  function ControlsSize(controls: seq<Bytes>): nat
  {
    if controls == [] then 0 else ControlsSize(controls[..|controls| - 1]) + |controls[|controls| - 1]| + 1
  }

  function SizeOf(rule: Rule): nat
  {
    HeadSize(rule) + ControlsSize(rule.controls)
  }

  method CountSize(rule: Rule) returns (size: nat)
    ensures size == SizeOf(rule)
  {
    size := HeadSize(rule);
    for i := 0 to |rule.controls|
      invariant size == HeadSize(rule) + ControlsSize(rule.controls[..i])
    {
      assert rule.controls[..i + 1][..i] == rule.controls[..i];
      size := size + |rule.controls[i]| + 1;
    }
    assert rule.controls[..|rule.controls|] == rule.controls;
  }

  ghost function ProtectedBytes(rules: seq<Rule>, task: Task): nat
  {
    Sum(SizeOf, Protected(rules, task)) + Sum(HeadSize, CriticalUnknowns(rules, task))
  }

  /** Higher score first, then smaller rule id. */
  function RankBefore(score: Rule -> nat): (Rule, Rule) -> bool
  {
    (a: Rule, b: Rule) => score(a) > score(b) || (score(a) == score(b) && LexBefore(a.id, b.id))
  }

  ghost function Ranked(score: Rule -> nat, rules: seq<Rule>, task: Task): seq<Rule>
  {
    Sorted(RankBefore(score), Supporting(rules, task))
  }

  // ---- The lexical score ----

  ghost predicate FoundAt(text: Bytes, part: Bytes, i: nat)
  {
    i + |part| <= |text| && text[i..i + |part|] == part
  }

  ghost predicate Contains(text: Bytes, part: Bytes)
  {
    exists i: nat :: FoundAt(text, part, i)
  }

  /** The word that starts at i ends at j: no space inside, a space or an end on
      both sides. */
  ghost predicate IsWord(text: Bytes, i: nat, j: nat)
  {
    && i < j <= |text| && SPACE !in text[i..j]
    && (i == 0 || text[i - 1] == SPACE) && (j == |text| || text[j] == SPACE)
  }

  /** A word of at least five letters that the objective mentions. */
  ghost predicate Mentioned(objective: Bytes, control: Bytes, i: nat)
  {
    exists j: nat :: IsWord(control, i, j) && j - i >= 5 && Contains(objective, control[i..j])
  }

  ghost function MentionedFrom(objective: Bytes, control: Bytes, begin: nat): set<nat>
  {
    set i: nat | i < |control| && begin <= i && Mentioned(objective, control, i)
  }

  /** A control scores 100 when the objective holds it whole, and otherwise 10 for
      each of its mentioned words. */
  ghost function ControlScore(objective: Bytes, control: Bytes): nat
  {
    if Contains(objective, control) then 100 else 10 * |MentionedFrom(objective, control, 0)|
  }

  ghost function ScoreOf(rule: Rule, task: Task): nat
  {
    Sum((control: Bytes) => ControlScore(task.objective, control), rule.controls)
    + Sum((id: Bytes) => if id in task.explicitIds then 50 else 0, rule.selectors.explicitIds)
    + if task.repository in rule.selectors.repositories then 5 else 0
  }

  method Finds(text: Bytes, part: Bytes) returns (found: bool)
    ensures found <==> Contains(text, part)
  {
    var i := 0;
    while i + |part| <= |text|
      invariant forall k: nat :: k < i ==> !FoundAt(text, part, k)
      decreases |text| - i
    {
      if text[i..i + |part|] == part {
        assert FoundAt(text, part, i);
        return true;
      }
      i := i + 1;
    }
    return false;
  }

  method FindSpace(text: Bytes, begin: nat) returns (end: nat)
    requires begin <= |text|
    ensures begin <= end <= |text| && SPACE !in text[begin..end] && (end == |text| || text[end] == SPACE)
  {
    end := begin;
    while end < |text| && text[end] != SPACE
      invariant begin <= end <= |text| && SPACE !in text[begin..end]
    {
      assert text[begin..end + 1] == text[begin..end] + [text[end]];
      end := end + 1;
    }
  }

  lemma NoSpaceWithin(text: Bytes, i: nat, j: nat, k: nat)
    requires i <= k < j <= |text| && SPACE !in text[i..j]
    ensures text[k] != SPACE
  {
    assert text[i..j][k - i] == text[k];
  }

  /** From a word boundary to the next space there is one word, or none. */
  lemma OneWord(objective: Bytes, control: Bytes, begin: nat, end: nat)
    requires begin <= end <= |control| && (begin == 0 || control[begin - 1] == SPACE)
    requires SPACE !in control[begin..end] && (end == |control| || control[end] == SPACE)
    ensures var rated := end - begin >= 5 && Contains(objective, control[begin..end]);
            var rest := MentionedFrom(objective, control, end + 1);
            && (rated ==> begin !in rest)
            && MentionedFrom(objective, control, begin) == if rated then {begin} + rest else rest
  {
    hide Contains;
    var rated := end - begin >= 5 && Contains(objective, control[begin..end]);
    forall i: nat, j: nat | begin <= i <= end && IsWord(control, i, j) ensures i == begin && j == end {
      OnlyWord(control, begin, end, i, j);
    }
    if rated {
      assert IsWord(control, begin, end);
      assert Mentioned(objective, control, begin);
    }
  }

  lemma OnlyWord(text: Bytes, begin: nat, end: nat, i: nat, j: nat)
    requires begin <= end <= |text| && SPACE !in text[begin..end] && (end == |text| || text[end] == SPACE)
    requires begin <= i <= end && IsWord(text, i, j)
    ensures i == begin && j == end
  {
    assert forall k :: begin <= k < end ==> text[k] != SPACE by {
      forall k | begin <= k < end ensures text[k] != SPACE {
        NoSpaceWithin(text, begin, end, k);
      }
    }
    assert forall k :: i <= k < j ==> text[k] != SPACE by {
      forall k | i <= k < j ensures text[k] != SPACE {
        NoSpaceWithin(text, i, j, k);
      }
    }
  }

  method WordScore(objective: Bytes, control: Bytes) returns (score: nat)
    ensures score == 10 * |MentionedFrom(objective, control, 0)|
  {
    hide Contains, Mentioned, MentionedFrom;
    score := 0;
    var begin := 0;
    while begin < |control|
      invariant begin <= |control| + 1 && (begin == 0 || begin == |control| + 1 || control[begin - 1] == SPACE)
      invariant score + 10 * |MentionedFrom(objective, control, begin)| == 10 * |MentionedFrom(objective, control, 0)|
      decreases |control| + 1 - begin
    {
      var end := FindSpace(control, begin);
      var word := control[begin..end];
      OneWord(objective, control, begin, end);
      if |word| >= 5 {
        var found := Finds(objective, word);
        if found {
          score := score + 10;
        }
      }
      begin := end + 1;
    }
    NoWordsLeft(objective, control, begin);
  }

  lemma NoWordsLeft(objective: Bytes, control: Bytes, begin: nat)
    requires begin >= |control|
    ensures MentionedFrom(objective, control, begin) == {}
  {
  }

  method RankScore(rule: Rule, task: Task) returns (score: nat)
    ensures score == ScoreOf(rule, task)
  {
    hide ControlScore;
    ghost var perControl := (control: Bytes) => ControlScore(task.objective, control);
    ghost var perId := (id: Bytes) => if id in task.explicitIds then 50 else 0;
    score := 0;
    for i := 0 to |rule.controls|
      invariant score == Sum(perControl, rule.controls[..i])
    {
      assert rule.controls[..i + 1][..i] == rule.controls[..i];
      var one := ScoreControl(task.objective, rule.controls[i]);
      score := score + one;
    }
    assert rule.controls[..|rule.controls|] == rule.controls;
    var ids := rule.selectors.explicitIds;
    for i := 0 to |ids|
      invariant score == Sum(perControl, rule.controls) + Sum(perId, ids[..i])
    {
      assert ids[..i + 1][..i] == ids[..i];
      if ids[i] in task.explicitIds {
        score := score + 50;
      }
    }
    assert ids[..|ids|] == ids;
    if task.repository in rule.selectors.repositories {
      score := score + 5;
    }
  }

  method ScoreControl(objective: Bytes, control: Bytes) returns (score: nat)
    ensures score == ControlScore(objective, control)
  {
    hide Contains, MentionedFrom;
    var found := Finds(objective, control);
    if found {
      return 100;
    }
    score := WordScore(objective, control);
  }

  // ---- The budget law ----

  const WRAP: nat := 0x1_0000_0000_0000_0000

  /** A request can only narrow the policy cap. */
  function Budget(budgets: Budgets, requested: u64): u64
  {
    if 0 < requested < budgets.payloadMax then requested else budgets.payloadMax
  }

  /** The supporting share, in 64-bit arithmetic. */
  function SupportingCap(remaining: nat, percent: nat): nat
  {
    remaining * percent % WRAP / 100
  }

  /** The longest prefix whose total stays within the cap. */
  ghost predicate IsLongestFit(kept: seq<Rule>, ranked: seq<Rule>, cap: nat)
  {
    && kept <= ranked
    && Sum(SizeOf, kept) <= cap
    && forall n :: |kept| < n <= |ranked| ==> Sum(SizeOf, ranked[..n]) > cap
  }

  lemma {:induction false} SumOfPrefix(ranked: seq<Rule>, m: nat, n: nat)
    requires m <= n <= |ranked|
    ensures Sum(SizeOf, ranked[..m]) + 64 * (n - m) <= Sum(SizeOf, ranked[..n])
  {
    hide SizeOf, ControlsSize;
    if m < n {
      SumOfPrefix(ranked, m, n - 1);
      assert ranked[..n][..n - 1] == ranked[..n - 1];
      AtLeastHead(ranked[n - 1]);
    }
  }

  lemma AtLeastHead(rule: Rule)
    ensures SizeOf(rule) >= 64
  {
  }

  method FillBudget(ranked: seq<Rule>, cap: nat) returns (kept: seq<Rule>)
    ensures IsLongestFit(kept, ranked, cap)
  {
    hide SizeOf;
    kept := [];
    var bytes := 0;
    for i := 0 to |ranked|
      invariant kept == ranked[..i] && bytes == Sum(SizeOf, kept) <= cap
    {
      var size := CountSize(ranked[i]);
      assert ranked[..i + 1][..i] == ranked[..i];
      if bytes + size > cap {
        forall n | |kept| < n <= |ranked| ensures Sum(SizeOf, ranked[..n]) > cap {
          SumOfPrefix(ranked, i + 1, n);
        }
        return;
      }
      bytes := bytes + size;
      kept := kept + [ranked[i]];
    }
  }

  /** What a whole evaluation returns. */
  ghost predicate Selects(r: Selection, rules: seq<Rule>, task: Task, budgets: Budgets, requested: u64,
                          score: Rule -> nat)
  {
    var used, budget := ProtectedBytes(rules, task), Budget(budgets, requested);
    && r.verdicts == seq(|rules|, i requires 0 <= i < |rules| => VerdictOf(rules[i], task))
    && r.protected == Protected(rules, task)
    && r.unresolved == CriticalUnknowns(rules, task)
    && (r.readiness.BudgetInsufficient? <==> used > budget)
    && (used > budget ==> r.candidates == Ranked(score, rules, task))
    && (used <= budget ==>
          && IsLongestFit(r.candidates, Ranked(score, rules, task), SupportingCap(budget - used, budgets.sharePercent))
          && (r.readiness.ReadyForPhase? <==> r.unresolved == []))
  }

  ghost function TaskScore(task: Task): Rule -> nat
  {
    (rule: Rule) => ScoreOf(rule, task)
  }

  method EvaluateSelection(rules: seq<Rule>, task: Task, budgets: Budgets, requested: u64) returns (r: Selection)
    ensures Selects(r, rules, task, budgets, requested, TaskScore(task))
  {
    hide VerdictOf, SizeOf, RankBefore, IsLongestFit, SupportingCap, TaskScore, Sorted;
    var verdicts: seq<Verdict> := [];
    for i := 0 to |rules|
      invariant |verdicts| == i && forall k :: 0 <= k < i ==> verdicts[k] == VerdictOf(rules[k], task)
    {
      var verdict := EvaluateRule(rules[i], task);
      verdicts := verdicts + [verdict];
    }
    var included, unknown, supporting, used := Partition(rules, task, verdicts);
    var ranked := Rank(supporting, task);
    var budget := Budget(budgets, requested);
    if used > budget {
      return Selection(verdicts, included, unknown, ranked, BudgetInsufficient);
    }
    var kept := FillBudget(ranked, SupportingCap(budget - used, budgets.sharePercent));
    return Selection(verdicts, included, unknown, kept, if unknown == [] then ReadyForPhase else NeedsEvidence);
  }

  method Partition(rules: seq<Rule>, task: Task, verdicts: seq<Verdict>)
    returns (included: seq<Rule>, unknown: seq<Rule>, supporting: seq<Rule>, used: nat)
    requires |verdicts| == |rules| && forall k :: 0 <= k < |rules| ==> verdicts[k] == VerdictOf(rules[k], task)
    ensures included == Protected(rules, task) && unknown == CriticalUnknowns(rules, task)
    ensures supporting == Supporting(rules, task) && used == ProtectedBytes(rules, task)
  {
    hide VerdictOf, SizeOf;
    included, unknown, supporting, used := [], [], [], 0;
    for i := 0 to |rules|
      invariant included == Protected(rules[..i], task) && unknown == CriticalUnknowns(rules[..i], task)
      invariant supporting == Supporting(rules[..i], task) && used == ProtectedBytes(rules[..i], task)
    {
      var rule := rules[i];
      assert rules[..i + 1][..i] == rules[..i];
      if verdicts[i].Applicable? {
        if IsProtected(rule) {
          var size := CountSize(rule);
          assert (included + [rule])[..|included|] == included;
          included, used := included + [rule], used + size;
        } else {
          supporting := supporting + [rule];
        }
      } else if verdicts[i].Unresolved? && (rule.priority.P0Core? || rule.priority.P1Protected?) {
        assert (unknown + [rule])[..|unknown|] == unknown;
        unknown, used := unknown + [rule], used + HeadSize(rule);
      }
    }
    assert rules[..|rules|] == rules;
  }

  /** Sorts stably by the scores of the rules. */
  method Rank(supporting: seq<Rule>, task: Task) returns (ranked: seq<Rule>)
    ensures ranked == Sorted(RankBefore(TaskScore(task)), supporting)
    ensures multiset(ranked) == multiset(supporting) && ScoreThenId(TaskScore(task), ranked)
  {
    hide ScoreOf, LexBefore;
    var scores: map<Rule, nat> := map[];
    for i := 0 to |supporting|
      invariant forall k :: 0 <= k < i ==> supporting[k] in scores
      invariant forall rule :: rule in scores ==> scores[rule] == ScoreOf(rule, task)
    {
      var score := RankScore(supporting[i], task);
      scores := scores[supporting[i] := score];
    }
    var before := RankBefore((rule: Rule) => if rule in scores then scores[rule] else 0);
    ranked := StableSort(supporting, before);
    SortedAgrees(before, RankBefore(TaskScore(task)), supporting);
    RankOrder(TaskScore(task));
    SortedIsSorted(RankBefore(TaskScore(task)), supporting);
  }

  method StableSort(supporting: seq<Rule>, before: (Rule, Rule) -> bool) returns (ranked: seq<Rule>)
    ensures ranked == Sorted(before, supporting)
  {
    ranked := [];
    for i := 0 to |supporting|
      invariant ranked == Sorted(before, supporting[..i])
    {
      assert supporting[..i + 1][..i] == supporting[..i];
      ranked := Insert(before, supporting[i], ranked);
    }
    assert supporting[..|supporting|] == supporting;
  }

  // ---- The ranking is a total order on distinct rules ----

  lemma RankOrder(score: Rule -> nat)
    ensures WeakOrder(RankBefore(score))
  {
    hide LexBefore;
    var before := RankBefore(score);
    forall x: Rule ensures !before(x, x) {
      LexIrreflexive(x.id);
    }
    forall x: Rule, y: Rule, z: Rule | before(x, y) && before(y, z) ensures before(x, z) {
      if score(x) == score(z) {
        LexTransitive(x.id, y.id, z.id);
      }
    }
    forall x: Rule, y: Rule, z: Rule | !before(y, x) && !before(z, y) ensures !before(z, x) {
      if before(z, x) && score(z) == score(x) {
        LexTotal(x.id, y.id);
        if LexBefore(x.id, y.id) {
          LexTransitive(z.id, x.id, y.id);
        }
      }
    }
  }

  /** Highest score first, then smallest id. */
  ghost predicate ScoreThenId(score: Rule -> nat, ranked: seq<Rule>)
  {
    forall i, j :: 0 <= i < j < |ranked| ==>
      score(ranked[i]) > score(ranked[j])
      || (score(ranked[i]) == score(ranked[j]) && !LexBefore(ranked[j].id, ranked[i].id))
  }

  /** The ranking holds the applicable supporting rules, highest score first, then
      smallest id; rules with the same score and id keep policy order. */
  lemma RankedByScoreThenId(score: Rule -> nat, rules: seq<Rule>, task: Task, rule: Rule)
    ensures var ranked, supporting := Ranked(score, rules, task), Supporting(rules, task);
            var alike := (r: Rule) => score(r) == score(rule) && r.id == rule.id;
            && multiset(ranked) == multiset(supporting)
            && ScoreThenId(score, ranked)
            && Filter(alike, ranked) == Filter(alike, supporting)
  {
    hide LexBefore, Filter, VerdictOf;
    var before, supporting := RankBefore(score), Supporting(rules, task);
    RankOrder(score);
    SortedIsSorted(before, supporting);
    SortedStable(before, supporting, rule);
    var alike := (r: Rule) => score(r) == score(rule) && r.id == rule.id;
    forall r: Rule ensures Tied(before, rule)(r) == alike(r) {
      LexTotal(r.id, rule.id);
      LexIrreflexive(r.id);
    }
    FilterAgrees(Tied(before, rule), alike, Ranked(score, rules, task));
    FilterAgrees(Tied(before, rule), alike, supporting);
  }

  /** In every evaluation the candidates come highest score first, then smallest
      id, and each of them precedes, in that order, every applicable supporting
      rule that was not kept. */
  lemma CandidatesOutrank(r: Selection, rules: seq<Rule>, task: Task, budgets: Budgets, requested: u64,
                          score: Rule -> nat)
    requires Selects(r, rules, task, budgets, requested, score)
    ensures ScoreThenId(score, r.candidates)
    ensures exists dropped ::
              && multiset(r.candidates + dropped) == multiset(Supporting(rules, task))
              && ScoreThenId(score, r.candidates + dropped)
  {
    hide Selects, LexBefore, Ranked, Supporting;
    var ranked := Ranked(score, rules, task);
    CandidatesLead(r, rules, task, budgets, requested, score);
    RankedByScoreThenId(score, rules, task, Rule([], true, P0Core, Selectors([], [], [], [], [], [], []), [], []));
    var dropped := ranked[|r.candidates|..];
    assert r.candidates + dropped == ranked;
    LeadIsOrdered(score, ranked, |r.candidates|);
  }

  lemma CandidatesLead(r: Selection, rules: seq<Rule>, task: Task, budgets: Budgets, requested: u64,
                       score: Rule -> nat)
    requires Selects(r, rules, task, budgets, requested, score)
    ensures r.candidates <= Ranked(score, rules, task)
  {
    hide VerdictOf, ProtectedBytes, SupportingCap, Sum, Ranked, Filter;
  }

  lemma LeadIsOrdered(score: Rule -> nat, ranked: seq<Rule>, n: nat)
    requires ScoreThenId(score, ranked) && n <= |ranked|
    ensures ScoreThenId(score, ranked[..n])
  {
    hide LexBefore;
  }

  ghost predicate UniqueIds(rules: seq<Rule>)
  {
    forall i, j :: 0 <= i < j < |rules| ==> rules[i].id != rules[j].id
  }

  lemma {:induction false} FilterMembers<T>(p: T -> bool, s: seq<T>)
    ensures forall x :: x in Filter(p, s) <==> x in s && p(x)
    ensures |Filter(p, s)| <= |s|
  {
    if s != [] {
      FilterMembers(p, s[..|s| - 1]);
      assert s == s[..|s| - 1] + [s[|s| - 1]];
    }
  }

  lemma {:induction false} FilterUnique(p: Rule -> bool, rules: seq<Rule>)
    requires UniqueIds(rules)
    ensures UniqueIds(Filter(p, rules))
  {
    if rules != [] {
      var last := |rules| - 1;
      FilterUnique(p, rules[..last]);
      FilterMembers(p, rules[..last]);
      var init := Filter(p, rules[..last]);
      forall i | 0 <= i < |init| ensures init[i].id != rules[last].id {
        assert init[i] in rules[..last];
      }
    }
  }

  lemma {:induction false} FilterCount<T>(p: T -> bool, s: seq<T>, x: T)
    ensures multiset(Filter(p, s))[x] == if p(x) then multiset(s)[x] else 0
  {
    if s != [] {
      FilterCount(p, s[..|s| - 1], x);
      assert s == s[..|s| - 1] + [s[|s| - 1]];
    }
  }

  lemma FilterPermutes<T(!new)>(p: T -> bool, a: seq<T>, b: seq<T>)
    requires multiset(a) == multiset(b)
    ensures multiset(Filter(p, a)) == multiset(Filter(p, b))
  {
    forall x: T ensures multiset(Filter(p, a))[x] == multiset(Filter(p, b))[x] {
      FilterCount(p, a, x);
      FilterCount(p, b, x);
    }
  }

  lemma {:induction false} SumSplit<T>(size: T -> nat, s: seq<T>, i: nat)
    requires i < |s|
    ensures Sum(size, s) == Sum(size, s[..i] + s[i + 1..]) + size(s[i])
  {
    var last := |s| - 1;
    if i == last {
      assert s[..i] + s[i + 1..] == s[..last];
    } else {
      SumSplit(size, s[..last], i);
      var rest := s[..i] + s[i + 1..];
      assert rest[..|rest| - 1] == s[..last][..i] + s[..last][i + 1..];
    }
  }

  lemma {:induction false} SumPermutes<T>(size: T -> nat, a: seq<T>, b: seq<T>)
    requires multiset(a) == multiset(b)
    ensures Sum(size, a) == Sum(size, b)
    decreases |a|
  {
    if a == [] {
      assert |multiset(b)| == 0;
    } else {
      var x := a[|a| - 1];
      assert a == a[..|a| - 1] + [x];
      assert x in multiset(b);
      var i :| 0 <= i < |b| && b[i] == x;
      assert b == b[..i] + [x] + b[i + 1..];
      assert multiset(b[..i] + b[i + 1..]) == multiset(b) - multiset{x};
      SumPermutes(size, a[..|a| - 1], b[..i] + b[i + 1..]);
      SumSplit(size, b, i);
    }
  }

  /** Permuting rules with unique ids changes neither the ranking nor the bytes
      the protected material takes. */
  lemma RankingIgnoresRuleOrder(score: Rule -> nat, a: seq<Rule>, b: seq<Rule>, task: Task)
    requires multiset(a) == multiset(b) && UniqueIds(a)
    ensures Ranked(score, a, task) == Ranked(score, b, task)
    ensures ProtectedBytes(a, task) == ProtectedBytes(b, task)
  {
    hide VerdictOf, SizeOf, HeadSize, LexBefore, Filter, Sum, Sorted;
    var chosen := (r: Rule) => VerdictOf(r, task).Applicable? && !IsProtected(r);
    var kept := (r: Rule) => VerdictOf(r, task).Applicable? && IsProtected(r);
    var unknown := (r: Rule) => VerdictOf(r, task).Unresolved? && (r.priority.P0Core? || r.priority.P1Protected?);
    FilterPermutes(chosen, a, b);
    FilterPermutes(kept, a, b);
    FilterPermutes(unknown, a, b);
    SumPermutes(SizeOf, Protected(a, task), Protected(b, task));
    SumPermutes(HeadSize, CriticalUnknowns(a, task), CriticalUnknowns(b, task));
    var before, s := RankBefore(score), Supporting(a, task);
    RankOrder(score);
    FilterUnique(chosen, a);
    forall i, j | 0 <= i < j < |s| ensures before(s[i], s[j]) || before(s[j], s[i]) {
      LexTotal(s[i].id, s[j].id);
    }
    SortedUnique(before, s, Supporting(b, task));
  }

  lemma FitIsUnique(a: seq<Rule>, b: seq<Rule>, ranked: seq<Rule>, cap: nat)
    requires IsLongestFit(a, ranked, cap) && IsLongestFit(b, ranked, cap)
    ensures a == b
  {
    hide Sum;
    assert a == ranked[..|a|] && b == ranked[..|b|];
  }

  /** Two evaluations of the same rules in different orders keep the same
      candidates, in the same order, with the same readiness. */
  lemma SelectionIgnoresRuleOrder(x: Selection, y: Selection, a: seq<Rule>, b: seq<Rule>, task: Task,
                                  budgets: Budgets, requested: u64, score: Rule -> nat)
    requires multiset(a) == multiset(b) && UniqueIds(a)
    requires Selects(x, a, task, budgets, requested, score) && Selects(y, b, task, budgets, requested, score)
    ensures x.candidates == y.candidates && x.readiness == y.readiness
    ensures multiset(x.protected) == multiset(y.protected) && multiset(x.unresolved) == multiset(y.unresolved)
  {
    hide VerdictOf, IsLongestFit, Ranked, ProtectedBytes, SupportingCap, Filter;
    RankingIgnoresRuleOrder(score, a, b, task);
    FilterPermutes((r: Rule) => VerdictOf(r, task).Applicable? && IsProtected(r), a, b);
    FilterPermutes((r: Rule) => VerdictOf(r, task).Unresolved? && (r.priority.P0Core? || r.priority.P1Protected?), a, b);
    assert x.unresolved == [] <==> y.unresolved == [] by {
      assert |x.unresolved| == |multiset(x.unresolved)| && |y.unresolved| == |multiset(y.unresolved)|;
    }
    var used, budget := ProtectedBytes(a, task), Budget(budgets, requested);
    if used <= budget {
      FitIsUnique(x.candidates, y.candidates, Ranked(score, a, task),
                  SupportingCap(budget - used, budgets.sharePercent));
    }
  }

  /** Where every rule of an evaluation goes, by its verdict and priority. */
  lemma PlacedExactly(rules: seq<Rule>, task: Task, rule: Rule)
    ensures rule in Protected(rules, task) <==>
            rule in rules && VerdictOf(rule, task) == Applicable && rule.priority in {P0Core, P1Protected, P2Required}
    ensures rule in CriticalUnknowns(rules, task) <==>
            rule in rules && VerdictOf(rule, task) == Unresolved && rule.priority in {P0Core, P1Protected}
    ensures rule in Supporting(rules, task) <==>
            rule in rules && VerdictOf(rule, task) == Applicable && rule.priority in {P3Supporting, P4OnDemand}
  {
    hide VerdictOf, Filter;
    FilterMembers((r: Rule) => VerdictOf(r, task).Applicable? && IsProtected(r), rules);
    FilterMembers((r: Rule) => VerdictOf(r, task).Unresolved? && (r.priority.P0Core? || r.priority.P1Protected?), rules);
    FilterMembers((r: Rule) => VerdictOf(r, task).Applicable? && !IsProtected(r), rules);
  }

  /** What an evaluation reports: too little budget exactly when the protected
      rules and critical unknowns it lists take more than it, and otherwise
      evidence is needed exactly when there are unknowns. */
  lemma ReadinessExactly(r: Selection, rules: seq<Rule>, task: Task, budgets: Budgets, requested: u64,
                         score: Rule -> nat)
    requires Selects(r, rules, task, budgets, requested, score)
    ensures var bytes := Sum(SizeOf, r.protected) + Sum(HeadSize, r.unresolved);
            var budget := if requested == 0 || budgets.payloadMax <= requested then budgets.payloadMax else requested;
            && (r.readiness.BudgetInsufficient? <==> budget < bytes)
            && (r.readiness.NeedsEvidence? <==> bytes <= budget && r.unresolved != [])
            && (r.readiness.ReadyForPhase? <==> bytes <= budget && r.unresolved == [])
  {
    hide VerdictOf, SizeOf, HeadSize, Sum, Ranked, IsLongestFit, SupportingCap, Filter;
  }

  /** An evaluation is determined by its inputs. */
  lemma SelectionDetermined(x: Selection, y: Selection, rules: seq<Rule>, task: Task, budgets: Budgets,
                            requested: u64, score: Rule -> nat)
    requires Selects(x, rules, task, budgets, requested, score) && Selects(y, rules, task, budgets, requested, score)
    ensures x == y
    ensures |x.verdicts| == |rules| && forall i :: 0 <= i < |rules| ==> x.verdicts[i] == VerdictOf(rules[i], task)
  {
    hide VerdictOf, ProtectedBytes, Ranked, IsLongestFit, SupportingCap, Filter;
    var used, budget := ProtectedBytes(rules, task), Budget(budgets, requested);
    if used <= budget {
      FitIsUnique(x.candidates, y.candidates, Ranked(score, rules, task),
                  SupportingCap(budget - used, budgets.sharePercent));
    }
  }

  // ---- Sizes and scores, one part at a time ----

  /** A text contains a part exactly when it is the part with something, or
      nothing, on either side. */
  lemma ContainsExactly(text: Bytes, part: Bytes)
    ensures Contains(text, part) <==> exists before: Bytes, after: Bytes :: text == before + part + after
    ensures SPACE == ' ' as int && SLASH == '/' as int
  {
    if i: nat :| FoundAt(text, part, i) {
      assert text == text[..i] + part + text[i + |part|..];
    }
    if before: Bytes, after: Bytes :| text == before + part + after {
      assert text[|before|..|before| + |part|] == part;
      assert FoundAt(text, part, |before|);
    }
  }

  /** A rule without controls counts its id, its path and 64; each control adds
      its length and one. */
  lemma SizeExactly(rule: Rule, control: Bytes)
    ensures rule.controls == [] ==> SizeOf(rule) == |rule.id| + |rule.path| + 64
    ensures SizeOf(rule.(controls := rule.controls + [control])) == SizeOf(rule) + |control| + 1
  {
    assert (rule.controls + [control])[..|rule.controls|] == rule.controls;
  }

  /** What each part of a rule adds to its score: a control the objective holds
      whole 100, any other 10 for each word of at least five letters that the
      objective holds, an explicit id the task names 50, the task's repository
      5. */
  lemma ScoreExactly(rule: Rule, task: Task, control: Bytes, id: Bytes)
    ensures rule.controls == [] && rule.selectors.explicitIds == [] ==>
              ScoreOf(rule, task) == if task.repository in rule.selectors.repositories then 5 else 0
    ensures ScoreOf(rule.(controls := rule.controls + [control]), task) == ScoreOf(rule, task)
              + if exists i: nat :: FoundAt(task.objective, control, i) then 100
                else 10 * |set i: nat | i < |control| && Mentioned(task.objective, control, i)|
    ensures ScoreOf(rule.(selectors := rule.selectors.(explicitIds := rule.selectors.explicitIds + [id])), task)
            == ScoreOf(rule, task) + if id in task.explicitIds then 50 else 0
  {
    hide FoundAt, Mentioned;
    assert (rule.controls + [control])[..|rule.controls|] == rule.controls;
    var ids := rule.selectors.explicitIds;
    assert (ids + [id])[..|ids|] == ids;
    assert MentionedFrom(task.objective, control, 0)
        == set i: nat | i < |control| && Mentioned(task.objective, control, i);
  }

  // ---- Budgets ----

  /** The budget is the smaller of the request and the policy cap, a request of
      zero asking for nothing; the supporting share is the percentage rounded
      down, as long as the product fits 64 bits. */
  lemma BudgetExactly(budgets: Budgets, requested: u64, remaining: nat)
    ensures requested == 0 ==> Budget(budgets, requested) == budgets.payloadMax
    ensures requested > 0 ==> Budget(budgets, requested) <= requested && Budget(budgets, requested) <= budgets.payloadMax
                              && Budget(budgets, requested) in {requested, budgets.payloadMax}
    ensures var product := remaining * budgets.sharePercent;
            var cap := SupportingCap(remaining, budgets.sharePercent);
            product < 0x1_0000_0000_0000_0000 ==> 100 * cap <= product < 100 * cap + 100
    ensures SupportingCap(0x1_0000_0000_0000_0000, 1) == 0
  {
    var product := remaining * budgets.sharePercent;
    assert product < WRAP ==> product % WRAP == product;
  }

  lemma CapWithinRemaining(remaining: nat, percent: nat)
    requires percent <= 100
    ensures SupportingCap(remaining, percent) <= remaining
  {
    assert remaining * percent <= remaining * 100;
    assert remaining * percent % WRAP <= remaining * percent;
  }

  /** Counted bytes stay within min(requested, policy cap) when the share is a
      percentage of at most 100. */
  lemma BudgetHeld(r: Selection, rules: seq<Rule>, task: Task, budgets: Budgets, requested: u64, score: Rule -> nat)
    requires Selects(r, rules, task, budgets, requested, score) && !r.readiness.BudgetInsufficient?
    requires budgets.sharePercent <= 100
    ensures ProtectedBytes(rules, task) + Sum(SizeOf, r.candidates) <= Budget(budgets, requested)
    ensures Budget(budgets, requested) <= budgets.payloadMax && (requested > 0 ==> Budget(budgets, requested) <= requested)
  {
    hide VerdictOf, ProtectedBytes, Ranked, SupportingCap;
    CapWithinRemaining(Budget(budgets, requested) - ProtectedBytes(rules, task), budgets.sharePercent);
  }

  function Sized(size: nat): (r: Rule)
    requires size >= 64
    ensures SizeOf(r) == size
  {
    Rule(seq(size - 64, _ => 0), true, P3Supporting, Selectors([], [], [], [], [], [], []), [], [])
  }

  /** For any remaining budget and share, the kept candidates stay within what
      remains whatever the candidates are exactly when the computed cap does,
      or is too small for any rule. */
  lemma BudgetHeldExactly(remaining: nat, percent: nat)
    ensures var cap := SupportingCap(remaining, percent);
            (forall kept, ranked :: IsLongestFit(kept, ranked, cap) ==> Sum(SizeOf, kept) <= remaining)
            <==> cap <= remaining || cap < 64
  {
    var cap := SupportingCap(remaining, percent);
    hide SupportingCap, SizeOf;
    if cap <= remaining || cap < 64 {
      forall kept, ranked | IsLongestFit(kept, ranked, cap) ensures Sum(SizeOf, kept) <= remaining {
        if cap < 64 {
          SumOfPrefix(kept, 0, |kept|);
          assert kept[..|kept|] == kept;
        }
      }
    } else {
      var one := [Sized(cap)];
      SumOfOne(one[0]);
      assert IsLongestFit(one, one, cap) && Sum(SizeOf, one) > remaining;
    }
  }

  lemma SumOfOne(rule: Rule)
    ensures Sum(SizeOf, [rule]) == SizeOf(rule)
  {
    assert [rule][..0] == [];
  }

  /** A larger cap keeps what a smaller one kept, and maybe more; this holds of
      two caps for all candidate lists exactly when they are in order, or the
      first is too small for any rule. */
  lemma LargerCapExtendsExactly(small: nat, large: nat)
    ensures (forall a, b, ranked :: IsLongestFit(a, ranked, small) && IsLongestFit(b, ranked, large) ==> a <= b)
            <==> small <= large || small < 64
  {
    hide SizeOf;
    if small <= large || small < 64 {
      forall a, b, ranked | IsLongestFit(a, ranked, small) && IsLongestFit(b, ranked, large) ensures a <= b {
        LargerCapExtends(a, b, ranked, small, large);
      }
    } else {
      var one := [Sized(small)];
      SumOfOne(one[0]);
      assert IsLongestFit(one, one, small) && IsLongestFit([], one, large) by {
        assert one[..1] == one;
      }
      assert !(one <= []);
    }
  }

  lemma LargerCapExtends(a: seq<Rule>, b: seq<Rule>, ranked: seq<Rule>, small: nat, large: nat)
    requires IsLongestFit(a, ranked, small) && IsLongestFit(b, ranked, large)
    requires small <= large || small < 64
    ensures a <= b
  {
    hide SizeOf;
    assert a == ranked[..|a|] && b == ranked[..|b|];
    if small < 64 {
      SumOfPrefix(ranked, 0, |a|);
    }
  }

  lemma CapMonotone(small: nat, large: nat, percent: nat)
    requires small <= large && large * percent < WRAP
    ensures SupportingCap(small, percent) <= SupportingCap(large, percent)
  {
    ProductMonotone(small, large, percent);
    HundredthMonotone(small * percent, large * percent);
  }

  lemma ProductMonotone(small: nat, large: nat, percent: nat)
    requires small <= large
    ensures 0 <= small * percent <= large * percent
  {
    assert large * percent == small * percent + (large - small) * percent;
  }

  lemma HundredthMonotone(a: nat, b: nat)
    requires a <= b < WRAP
    ensures a % WRAP / 100 <= b % WRAP / 100
  {
    assert a % WRAP == a && b % WRAP == b;
  }

  /** Raising the request extends the kept candidates, as long as the share
      computation does not wrap. */
  lemma LargerBudgetExtends(x: Selection, y: Selection, rules: seq<Rule>, task: Task, budgets: Budgets,
                            less: u64, more: u64, score: Rule -> nat)
    requires Selects(x, rules, task, budgets, less, score) && Selects(y, rules, task, budgets, more, score)
    requires Budget(budgets, less) <= Budget(budgets, more) && !x.readiness.BudgetInsufficient?
    requires (Budget(budgets, more) - ProtectedBytes(rules, task)) * budgets.sharePercent < WRAP
    ensures !y.readiness.BudgetInsufficient? && x.candidates <= y.candidates
    ensures x.protected == y.protected && x.unresolved == y.unresolved && x.readiness == y.readiness
  {
    hide VerdictOf, ProtectedBytes, Ranked, SupportingCap, IsLongestFit;
    var used := ProtectedBytes(rules, task);
    var small, large := Budget(budgets, less) - used, Budget(budgets, more) - used;
    CapMonotone(small, large, budgets.sharePercent);
    LargerCapExtends(x.candidates, y.candidates, Ranked(score, rules, task),
                     SupportingCap(small, budgets.sharePercent), SupportingCap(large, budgets.sharePercent));
  }

  /** With wrap-around a larger budget can keep less: at a share of 100 the
      remaining budget 2^64 / 100 + 1 has a cap below that of 1000. */
  lemma WrapShrinksCap()
    ensures SupportingCap(184467440737095517, 100) < 64 <= SupportingCap(1000, 100)
  {
  }

  // ---- Failing inputs of an evaluation ----

  const ANY_TASK := Task([], [], [], [], [], [], [])

  lemma OneSupportingRule(score: Rule -> nat, size: nat)
    requires size >= 64
    ensures Ranked(score, [Sized(size)], ANY_TASK) == [Sized(size)]
    ensures ProtectedBytes([Sized(size)], ANY_TASK) == 0
  {
    var rule := Sized(size);
    assert VerdictOf(rule, ANY_TASK) == Applicable;
    hide VerdictOf;
    FilterOne((r: Rule) => VerdictOf(r, ANY_TASK).Applicable? && !IsProtected(r), rule);
    FilterOne((r: Rule) => VerdictOf(r, ANY_TASK).Applicable? && IsProtected(r), rule);
    NothingUnknown(size);
    SortedOne(RankBefore(score), rule);
  }

  lemma SortedOne<T>(before: (T, T) -> bool, x: T)
    ensures Sorted(before, [x]) == [x]
  {
    assert [x][..0] == [];
    assert Sorted(before, [x][..0]) == [];
  }

  lemma FilterOne<T>(p: T -> bool, x: T)
    ensures Filter(p, [x]) == if p(x) then [x] else []
  {
    assert [x][..0] == [];
  }

  lemma OneRuleFits(kept: seq<Rule>, size: nat, cap: nat)
    requires size >= 64 && IsLongestFit(kept, [Sized(size)], cap)
    ensures kept == if size <= cap then [Sized(size)] else []
    ensures Sum(SizeOf, kept) == if size <= cap then size else 0
  {
    hide SizeOf;
    var one := [Sized(size)];
    assert one[..1] == one && one[..0] == [];
    SumOfOne(one[0]);
  }

  /** A policy cap of 184467440737095517 bytes at a share of 100 drops a rule of
      65 bytes that a request for 1000 bytes keeps. */
  lemma LargerBudgetDropsCandidate(x: Selection, y: Selection, score: Rule -> nat)
    ensures Selects(x, [Sized(65)], ANY_TASK, Budgets(184467440737095517, 100), 0, score) ==>
              x.candidates == [] && x.readiness.ReadyForPhase?
    ensures Selects(y, [Sized(65)], ANY_TASK, Budgets(184467440737095517, 100), 1000, score) ==>
              y.candidates == [Sized(65)] && y.readiness.ReadyForPhase?
  {
    hide Selects, Sized;
    OneRuleSelected(x, 65, Budgets(184467440737095517, 100), 0, score);
    OneRuleSelected(y, 65, Budgets(184467440737095517, 100), 1000, score);
  }

  /** At a share of 200 a budget of 100 bytes is overrun by a rule of 150. */
  lemma ShareOverrunsBudget(x: Selection, score: Rule -> nat)
    ensures Selects(x, [Sized(150)], ANY_TASK, Budgets(100, 200), 0, score) ==>
              && !x.readiness.BudgetInsufficient?
              && ProtectedBytes([Sized(150)], ANY_TASK) + Sum(SizeOf, x.candidates) == 150 > Budget(Budgets(100, 200), 0)
  {
    hide Selects, SizeOf, Sized, Ranked, ProtectedBytes;
    OneRuleSelected(x, 150, Budgets(100, 200), 0, score);
    OneSupportingRule(score, 150);
    SumOfOne(Sized(150));
  }

  /** What an evaluation makes of one supporting rule. */
  lemma OneRuleSelected(x: Selection, size: nat, budgets: Budgets, requested: u64, score: Rule -> nat)
    requires size >= 64
    ensures Selects(x, [Sized(size)], ANY_TASK, budgets, requested, score) ==>
              && x.readiness.ReadyForPhase?
              && x.candidates == if size <= SupportingCap(Budget(budgets, requested), budgets.sharePercent)
                                 then [Sized(size)] else []
  {
    hide IsLongestFit, Ranked, ProtectedBytes, VerdictOf, SupportingCap, Sized;
    OneSupportingRule(score, size);
    NothingUnknown(size);
    if Selects(x, [Sized(size)], ANY_TASK, budgets, requested, score) {
      OneRuleFits(x.candidates, size, SupportingCap(Budget(budgets, requested), budgets.sharePercent));
    }
  }

  lemma NothingUnknown(size: nat)
    requires size >= 64
    ensures CriticalUnknowns([Sized(size)], ANY_TASK) == []
  {
    var rule := Sized(size);
    assert VerdictOf(rule, ANY_TASK) == Applicable;
    FilterOne((r: Rule) => VerdictOf(r, ANY_TASK).Unresolved? && (r.priority.P0Core? || r.priority.P1Protected?), rule);
  }
}

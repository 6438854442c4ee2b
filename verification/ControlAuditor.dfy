/** The audit as it runs: `report` sorting each finding into failures or waivers inside nested loops. */
module ControlAuditor {
  import opened Text
  import opened ControlAudit

  lemma {:induction false} FailingConcat(ex: seq<Waiver>, a: seq<Violation>, b: seq<Violation>)
    ensures Failing(ex, a + b) == Failing(ex, a) + Failing(ex, b)
    ensures Waiving(ex, a + b) == Waiving(ex, a) + Waiving(ex, b)
  {
    hide IsWaived;
    if a == [] {
      assert a + b == b;
    } else {
      FailingConcat(ex, a[1..], b);
      SortedCons(ex, a[0], a[1..] + b);
      assert a + b == [a[0]] + (a[1..] + b);
      SortedCons(ex, a[0], a[1..]);
      assert a == [a[0]] + a[1..];
      hide Failing, Waiving;
    }
  }

  lemma SortedCons(ex: seq<Waiver>, v: Violation, vs: seq<Violation>)
    ensures Failing(ex, [v] + vs) == (if IsWaived(ex, v) then [] else [v]) + Failing(ex, vs)
    ensures Waiving(ex, [v] + vs) == (if IsWaived(ex, v) then [v] else []) + Waiving(ex, vs)
  {
    hide IsWaived;
    assert ([v] + vs)[1..] == vs;
  }

  lemma SortedSnoc(ex: seq<Waiver>, vs: seq<Violation>, v: Violation)
    ensures Failing(ex, vs + [v]) == Failing(ex, vs) + if IsWaived(ex, v) then [] else [v]
    ensures Waiving(ex, vs + [v]) == Waiving(ex, vs) + if IsWaived(ex, v) then [v] else []
  {
    hide IsWaived;
    FailingConcat(ex, vs, [v]);
    assert [v][1..] == [];
  }

  lemma StepsFrom(rel: string, steps: seq<Yaml>, i: nat)
    requires i < |steps|
    ensures StepsFindings(rel, steps[i..]) == Then(StepFindings(rel, steps[i]), StepsFindings(rel, steps[i + 1..]))
  {
    hide StepFindings;
    assert steps[i..][1..] == steps[i + 1..];
  }

  lemma JobsFrom(str: Yaml -> string, rel: string, jobs: seq<Entry>, i: nat)
    requires i < |jobs|
    ensures JobsFindings(str, rel, jobs[i..]) ==
            Then(JobFindings(str, rel, jobs[i].key, jobs[i].value), JobsFindings(str, rel, jobs[i + 1..]))
  {
    hide JobFindings;
    assert jobs[i..][1..] == jobs[i + 1..];
  }

  lemma WorkflowsFrom(str: Yaml -> string, ws: seq<Workflow>, i: nat)
    requires i < |ws|
    ensures WorkflowsFindings(str, ws[i..]) == Then(WorkflowFindings(str, ws[i]), WorkflowsFindings(str, ws[i + 1..]))
    ensures Names(ws[i..]) == WorkflowName(ws[i]) + Names(ws[i + 1..])
  {
    hide WorkflowFindings, WorkflowName;
    assert ws[i..][1..] == ws[i + 1..];
  }

  /** One more stretch of findings in a loop that has gathered `got`. */
  lemma Gather(got: seq<Violation>, now: Found, rest: Found, all: Found)
    requires Then(Some(got), Then(now, rest)) == Then(Some([]), all)
    ensures now.None? ==> all.None?
    ensures now.Some? ==> Then(Some(got + now.value), rest) == Then(Some([]), all)
  {
    if now.Some? && rest.Some? {
      assert got + now.value + rest.value == got + (now.value + rest.value);
    }
  }

  lemma Gathered(got: seq<Violation>, all: Found)
    requires Then(Some(got), Some([])) == Then(Some([]), all)
    ensures all == Some(got)
  {
    assert got + [] == got;
    assert all.Some? ==> [] + all.value == all.value;
  }

  class Auditor {
    const exceptions: seq<Waiver>
    var failures: seq<Violation>
    var waived: seq<Violation>
    var names: set<string>

    /** Everything reported so far, in order. */
    ghost var reported: seq<Violation>

    ghost predicate Valid()
      reads this
    {
      failures == Failing(exceptions, reported) && waived == Waiving(exceptions, reported)
    }

    constructor (exceptions: seq<Waiver>)
      ensures Valid() && this.exceptions == exceptions && reported == [] && names == {}
    {
      this.exceptions := exceptions;
      failures, waived, names, reported := [], [], {}, [];
    }

    method Report(code: string, path: string, message: string)
      requires Valid()
      modifies this
      ensures Valid() && names == old(names)
      ensures reported == old(reported) + [Violation(code, path, message)]
    {
      var v := Violation(code, path, message);
      SortedSnoc(exceptions, reported, v);
      hide Failing, Waiving;
      var exact := Lookup(exceptions, code, path);
      var reason := if exact != "" then exact else Lookup(exceptions, code, "*");
      if reason != "" {
        waived := waived + [v];
      } else {
        failures := failures + [v];
      }
      reported := reported + [v];
    }

    method ReportIf(cond: bool, code: string, path: string, message: string)
      requires Valid()
      modifies this
      ensures Valid() && names == old(names)
      ensures reported == old(reported) + If(cond, code, path, message)
    {
      if cond {
        Report(code, path, message);
      }
    }

    /** The innermost loop's body; false stands for the exception. */
    method AuditStep(rel: string, step: Yaml) returns (ok: bool)
      requires Valid()
      modifies this
      ensures Valid() && names == old(names)
      ensures ok <==> StepFindings(rel, step).Some?
      ensures ok ==> reported == old(reported) + StepFindings(rel, step).value
    {
      hide Valid, Get, Truthy, Unpinned, If;
      ok := true;
      if !step.Map? {
        return;
      }
      var found := Get(step.entries, Name("uses"));
      if found.None? || !found.value.Str? {
        return;
      }
      var uses := found.value.s;
      ReportIf(Unpinned(uses), "action-pin", rel, uses + " is not pinned to a full commit SHA");
      if "actions/checkout@" <= uses {
        var given := WithValues(step.entries);
        if given.None? {
          ok := false;
          return;
        }
        ReportIf(Get(given.value, Name("persist-credentials")) != Some(Bool(false)), "checkout-credentials", rel,
                 "actions/checkout must set persist-credentials: false");
      }
    }

    method AuditSteps(rel: string, steps: seq<Yaml>) returns (ok: bool)
      requires Valid()
      modifies this
      ensures Valid() && names == old(names)
      ensures ok <==> StepsFindings(rel, steps).Some?
      ensures ok ==> reported == old(reported) + StepsFindings(rel, steps).value
    {
      hide Valid, StepFindings, Then;
      ghost var got: seq<Violation> := [];
      assert steps[0..] == steps;
      for i := 0 to |steps|
        invariant Valid() && names == old(names) && reported == old(reported) + got
        invariant Then(Some(got), StepsFindings(rel, steps[i..])) == Then(Some([]), StepsFindings(rel, steps))
      {
        StepsFrom(rel, steps, i);
        Gather(got, StepFindings(rel, steps[i]), StepsFindings(rel, steps[i + 1..]), StepsFindings(rel, steps));
        ok := AuditStep(rel, steps[i]);
        if !ok {
          return;
        }
        got := got + StepFindings(rel, steps[i]).value;
      }
      assert steps[|steps|..] == [];
      Gathered(got, StepsFindings(rel, steps));
      ok := true;
    }

    method AuditJob(str: Yaml -> string, rel: string, id: Key, job: Yaml) returns (ok: bool)
      requires Valid()
      modifies this
      ensures Valid() && names == old(names)
      ensures ok <==> JobFindings(str, rel, id, job).Some?
      ensures ok ==> reported == old(reported) + JobFindings(str, rel, id, job).value
    {
      hide Valid, Get, Contains, StepsFindings, StepsOf, GetOr, If, KeyText;
      if !job.Map? {
        ReportIf(true, "workflow-job", rel, "job " + KeyText(id) + " must be a mapping");
        return true;
      }
      ReportIf(Get(job.entries, Name("timeout-minutes")).None?, "job-timeout", rel,
               "job " + KeyText(id) + " requires timeout-minutes");
      ReportIf(Contains(str(GetOr(job.entries, "if", Str(""))), "head.repo.full_name == github.repository"),
               "fork-scan", rel, "job " + KeyText(id) + " must not skip fork pull requests");
      var steps := StepsOf(job.entries);
      if steps.None? {
        return false;
      }
      ok := AuditSteps(rel, steps.value);
    }

    method AuditJobs(str: Yaml -> string, rel: string, jobs: seq<Entry>) returns (ok: bool)
      requires Valid()
      modifies this
      ensures Valid() && names == old(names)
      ensures ok <==> JobsFindings(str, rel, jobs).Some?
      ensures ok ==> reported == old(reported) + JobsFindings(str, rel, jobs).value
    {
      hide Valid, JobFindings, Then;
      ghost var got: seq<Violation> := [];
      assert jobs[0..] == jobs;
      for i := 0 to |jobs|
        invariant Valid() && names == old(names) && reported == old(reported) + got
        invariant Then(Some(got), JobsFindings(str, rel, jobs[i..])) == Then(Some([]), JobsFindings(str, rel, jobs))
      {
        JobsFrom(str, rel, jobs, i);
        Gather(got, JobFindings(str, rel, jobs[i].key, jobs[i].value), JobsFindings(str, rel, jobs[i + 1..]),
               JobsFindings(str, rel, jobs));
        ok := AuditJob(str, rel, jobs[i].key, jobs[i].value);
        if !ok {
          return;
        }
        got := got + JobFindings(str, rel, jobs[i].key, jobs[i].value).value;
      }
      assert jobs[|jobs|..] == [];
      Gathered(got, JobsFindings(str, rel, jobs));
      ok := true;
    }

    method AuditConcurrency(rel: string, data: seq<Entry>)
      requires Valid()
      modifies this
      ensures Valid() && names == old(names)
      ensures reported == old(reported) + ConcurrencyFindings(rel, data)
    {
      hide Valid, Get, BadGroup, BadCancel, If;
      var concurrency := Get(data, Name("concurrency"));
      if concurrency.None? || !concurrency.value.Map? {
        ReportIf(true, "workflow-concurrency", rel, "concurrency must define group and cancellation");
      } else {
        var c := concurrency.value.entries;
        ReportIf(BadGroup(c), "workflow-concurrency", rel, "concurrency.group must be scoped by github.ref");
        ReportIf(BadCancel(c), "workflow-concurrency", rel,
                 "concurrency.cancel-in-progress must be true or conditional");
      }
    }

    method AuditTop(w: Workflow, data: seq<Entry>)
      requires Valid()
      modifies this
      ensures Valid() && names == old(names)
      ensures reported == old(reported) + TopFindings(w, data)
    {
      hide Valid, Get, Contains, HasEvent, ConcurrencyFindings, NameOf, If;
      ReportIf(NameOf(data).None?, "workflow-name", w.rel, "workflow requires a stable name");
      ReportIf(Get(data, Name("permissions")).None?, "workflow-permissions", w.rel,
               "top-level permissions are required");
      AuditConcurrency(w.rel, data);
      ReportIf(HasEvent(data, "pull_request_target"), "pull-request-target", w.rel,
               "pull_request_target is prohibited");
      ReportIf(Contains(w.text, "ref: ${{ github.head_ref }}"), "fork-checkout", w.rel,
               "pull request jobs must use the read-only event checkout");
    }

    method AuditWorkflow(str: Yaml -> string, w: Workflow) returns (ok: bool)
      requires Valid()
      modifies this
      ensures Valid() && names == old(names) + WorkflowName(w)
      ensures ok <==> WorkflowFindings(str, w).Some?
      ensures ok ==> reported == old(reported) + WorkflowFindings(str, w).value
    {
      hide Valid, TopFindings, JobsFindings, NameOf, JobsOf, If, Load;
      var loaded := Load(w.parse);
      if loaded.LoadError? {
        ReportIf(true, "workflow-yaml", w.rel, loaded.msg);
        return true;
      }
      var data := loaded.entries;
      var name := NameOf(data);
      if name.Some? {
        NameValid(name.value);
      }
      AuditTop(w, data);
      var jobs := JobsOf(data);
      if !jobs.Map? || jobs.entries == [] {
        ReportIf(true, "workflow-jobs", w.rel, "workflow must define jobs");
        return true;
      }
      ok := AuditJobs(str, w.rel, jobs.entries);
    }

    method NameValid(name: string)
      requires Valid()
      modifies this
      ensures Valid() && names == old(names) + {name} && reported == old(reported)
    {
      names := names + {name};
    }

    method AuditWorkflows(str: Yaml -> string, ws: seq<Workflow>) returns (ok: bool)
      requires Valid()
      modifies this
      ensures Valid()
      ensures ok <==> WorkflowsFindings(str, ws).Some?
      ensures ok ==> reported == old(reported) + WorkflowsFindings(str, ws).value && names == old(names) + Names(ws)
    {
      hide Valid, WorkflowFindings, WorkflowName, Then;
      ghost var got: seq<Violation> := [];
      assert ws[0..] == ws;
      for i := 0 to |ws|
        invariant Valid() && reported == old(reported) + got
        invariant names + Names(ws[i..]) == old(names) + Names(ws)
        invariant Then(Some(got), WorkflowsFindings(str, ws[i..])) == Then(Some([]), WorkflowsFindings(str, ws))
      {
        WorkflowsFrom(str, ws, i);
        Gather(got, WorkflowFindings(str, ws[i]), WorkflowsFindings(str, ws[i + 1..]), WorkflowsFindings(str, ws));
        ok := AuditWorkflow(str, ws[i]);
        if !ok {
          return;
        }
        got := got + WorkflowFindings(str, ws[i]).value;
      }
      assert ws[|ws|..] == [];
      Gathered(got, WorkflowsFindings(str, ws));
      ok := true;
    }

    method AuditRequired(repo: Repo, paths: seq<string>)
      requires Valid()
      modifies this
      ensures Valid() && names == old(names)
      ensures reported == old(reported) + RequiredFindings(repo, paths)
    {
      hide Valid, MissingFile, If;
      ghost var got: seq<Violation> := [];
      for i := 0 to |paths|
        invariant Valid() && names == old(names) && reported == old(reported) + got
        invariant got + RequiredFindings(repo, paths[i..]) == RequiredFindings(repo, paths)
      {
        assert paths[i..][1..] == paths[i + 1..];
        ReportIf(MissingFile(repo, paths[i]), "required-file", paths[i], "missing or empty");
        got := got + If(MissingFile(repo, paths[i]), "required-file", paths[i], "missing or empty");
      }
    }

    method AuditInstructions(repo: Repo, paths: seq<string>)
      requires Valid()
      modifies this
      ensures Valid() && names == old(names)
      ensures reported == old(reported) + InstructionFindings(repo, paths)
    {
      hide Valid, ThinInstruction, If;
      ghost var got: seq<Violation> := [];
      for i := 0 to |paths|
        invariant Valid() && names == old(names) && reported == old(reported) + got
        invariant got + InstructionFindings(repo, paths[i..]) == InstructionFindings(repo, paths)
      {
        assert paths[i..][1..] == paths[i + 1..];
        ReportIf(ThinInstruction(repo, paths[i]), "instruction-source", paths[i],
                 "must remain a substantive universal instruction source");
        got := got + If(ThinInstruction(repo, paths[i]), "instruction-source", paths[i],
                        "must remain a substantive universal instruction source");
      }
    }

    method AuditNested(repo: Repo, paths: seq<string>)
      requires Valid()
      modifies this
      ensures Valid() && names == old(names)
      ensures reported == old(reported) + NestedFindings(repo, paths)
    {
      hide Valid, If;
      ghost var got: seq<Violation> := [];
      for i := 0 to |paths|
        invariant Valid() && names == old(names) && reported == old(reported) + got
        invariant got + NestedFindings(repo, paths[i..]) == NestedFindings(repo, paths)
      {
        assert paths[i..][1..] == paths[i + 1..];
        ReportIf(paths[i] !in repo.files, "nested-instructions", paths[i],
                 "declared nested instruction file is missing");
        got := got + If(paths[i] !in repo.files, "nested-instructions", paths[i],
                        "declared nested instruction file is missing");
      }
    }

    method AuditNames(required: seq<string>)
      requires Valid()
      modifies this
      ensures Valid() && names == old(names)
      ensures reported == old(reported) + MissingWorkflows(names, required)
    {
      hide Valid, If;
      ghost var got: seq<Violation> := [];
      for i := 0 to |required|
        invariant Valid() && names == old(names) && reported == old(reported) + got
        invariant got + MissingWorkflows(names, required[i..]) == MissingWorkflows(names, required)
      {
        assert required[i..][1..] == required[i + 1..];
        ReportIf(required[i] !in names, "required-workflow", required[i], "stable workflow name not found");
        got := got + If(required[i] !in names, "required-workflow", required[i], "stable workflow name not found");
      }
    }

    /** `main` on a fresh auditor: the findings of the specification, in its order, and its exit. */
    method Audit(policy: Policy, repo: Repo) returns (exit: Exit)
      requires Valid() && reported == [] && names == {} && exceptions == policy.exceptions
      modifies this
      ensures Valid() && exit == ExitOf(policy, repo)
      ensures !exit.Uncaught? ==> Findings(policy, repo) == Some(reported)
    {
      hide RequiredFindings, InstructionFindings, NestedFindings, WorkflowsFindings, MissingWorkflows, Names;
      hide Failing, Waiving;
      AuditRequired(repo, policy.required);
      AuditInstructions(repo, policy.instructions);
      AuditNested(repo, policy.nested);
      assert reported == FileFindings(policy, repo);
      var ok := AuditWorkflows(repo.str, repo.workflows);
      if !ok {
        return Uncaught;
      }
      assert names == Names(repo.workflows);
      AuditNames(policy.requiredWorkflows);
      assert reported == FileFindings(policy, repo) + (WorkflowsFindings(repo.str, repo.workflows).value
                         + MissingWorkflows(Names(repo.workflows), policy.requiredWorkflows));
      if failures != [] {
        return Code(1);
      }
      if policy.scannerMode.None? {
        return Uncaught;
      }
      exit := Code(0);
    }
  }
}

/** The control policy stated on its own, without loops or order, and what the audit's exit code says
    about it; how waivers change the verdict. */
module ControlPolicy {
  import opened Text
  import opened ActionPin
  import opened ControlAudit

  // ---------------------------------------------------------------- reading a mapping

  /** The first entry with the key holds the value. */
  ghost predicate Has(entries: seq<Entry>, key: Key, value: Yaml) {
    exists i :: FirstAt(entries, i, key) && entries[i].value == value
  }

  ghost predicate FirstAt(entries: seq<Entry>, i: int, key: Key) {
    0 <= i < |entries| && entries[i].key == key && forall j :: 0 <= j < i ==> entries[j].key != key
  }

  ghost predicate Missing(entries: seq<Entry>, key: Key) {
    forall i :: 0 <= i < |entries| ==> entries[i].key != key
  }

  /** What counts as nothing. */
  predicate Empty(y: Yaml) {
    y == Null || y == Bool(false) || y == Number(0) || y == Str("") || y == List([]) || y == Map([])
  }

  // ---------------------------------------------------------------- the policy

  /** A step may use only actions whose reference is a full commit, and a checkout must not keep credentials. */
  ghost predicate StepViolates(rel: string, step: Yaml, v: Violation) {
    step.Map? && exists uses :: Uses(step.entries, uses) && UseViolates(rel, step.entries, uses, v)
  }

  ghost predicate Uses(step: seq<Entry>, uses: string) {
    Has(step, Name("uses"), Str(uses))
  }

  ghost predicate DropsCredentials(step: seq<Entry>) {
    exists given :: Has(step, Name("with"), Map(given)) && Has(given, Name("persist-credentials"), Bool(false))
  }

  ghost predicate UseViolates(rel: string, step: seq<Entry>, uses: string, v: Violation) {
    || (v == Violation("action-pin", rel, uses + " is not pinned to a full commit SHA")
        && exists ref :: References(uses, ref) && !FullSha(ref))
    || (v == Violation("checkout-credentials", rel, "actions/checkout must set persist-credentials: false")
        && "actions/checkout@" <= uses && !DropsCredentials(step))
  }

  /** The key as it is shown in a message. */
  ghost predicate Shows(id: Key, text: string) {
    || id == Name(text)
    || id == OtherKey(text)
    || (id == Flag(true) && text == "True")
    || (id == Flag(false) && text == "False")
  }

  ghost predicate JobViolates(str: Yaml -> string, rel: string, id: Key, job: Yaml, v: Violation) {
    exists text :: Shows(id, text) && NamedJobViolates(str, rel, text, job, v)
  }

  ghost predicate NamedJobViolates(str: Yaml -> string, rel: string, text: string, job: Yaml, v: Violation) {
    if !job.Map? then v == Violation("workflow-job", rel, "job " + text + " must be a mapping")
    else
      || (v == Violation("job-timeout", rel, "job " + text + " requires timeout-minutes")
          && Missing(job.entries, Name("timeout-minutes")))
      || (v == Violation("fork-scan", rel, "job " + text + " must not skip fork pull requests")
          && exists cond :: Condition(job.entries, cond)
                            && Contains(str(cond), "head.repo.full_name == github.repository"))
      || exists step :: HasStep(job.entries, step) && StepViolates(rel, step, v)
  }

  ghost predicate Condition(job: seq<Entry>, cond: Yaml) {
    Has(job, Name("if"), cond) || (Missing(job, Name("if")) && cond == Str(""))
  }

  ghost predicate HasStep(job: seq<Entry>, step: Yaml) {
    exists steps :: Has(job, Name("steps"), List(steps)) && step in steps
  }

  ghost predicate DocumentViolates(w: Workflow, data: seq<Entry>, v: Violation) {
    || (v == Violation("workflow-name", w.rel, "workflow requires a stable name")
        && !exists name :: Has(data, Name("name"), Str(name)))
    || (v == Violation("workflow-permissions", w.rel, "top-level permissions are required")
        && Missing(data, Name("permissions")))
    || ConcurrencyViolates(w.rel, data, v)
    || (v == Violation("pull-request-target", w.rel, "pull_request_target is prohibited")
        && exists on :: Configured(data, on) && Lists(on, "pull_request_target"))
    || (v == Violation("fork-checkout", w.rel, "pull request jobs must use the read-only event checkout")
        && Contains(w.text, "ref: ${{ github.head_ref }}"))
  }

  /** What the document configures as its events, under either reading of the key. */
  ghost predicate Configured(data: seq<Entry>, on: Yaml) {
    Has(data, Name("on"), on) || (Missing(data, Name("on")) && Has(data, Flag(true), on))
  }

  ghost predicate Lists(on: Yaml, event: string) {
    || on == Str(event)
    || (on.List? && Str(event) in on.items)
    || (on.Map? && !Missing(on.entries, Name(event)))
  }

  /** `github.ref` occurs somewhere in the group's text. */
  ghost predicate ScopedByRef(concurrency: seq<Entry>) {
    exists group, i :: Has(concurrency, Name("group"), Str(group)) && RefAt(group, i)
  }

  predicate RefAt(group: string, i: int) {
    0 <= i <= |group| - 10 && group[i..][..10] == "github.ref"
  }

  /** Cancels always, or on an expression, blanks in front of it allowed. */
  ghost predicate Cancels(concurrency: seq<Entry>) {
    || Has(concurrency, Name("cancel-in-progress"), Bool(true))
    || exists s, n :: Has(concurrency, Name("cancel-in-progress"), Str(s)) && ExpressionAt(s, n)
  }

  predicate ExpressionAt(s: string, n: int) {
    0 <= n <= |s| && (forall i :: 0 <= i < n ==> IsBlank(s[i])) && "${{" <= s[n..]
  }

  ghost predicate ConcurrencyViolates(rel: string, data: seq<Entry>, v: Violation) {
    if exists c :: Has(data, Name("concurrency"), Map(c))
    then exists c :: Has(data, Name("concurrency"), Map(c)) && MappingViolates(rel, c, v)
    else v == Violation("workflow-concurrency", rel, "concurrency must define group and cancellation")
  }

  ghost predicate MappingViolates(rel: string, concurrency: seq<Entry>, v: Violation) {
    || (v == Violation("workflow-concurrency", rel, "concurrency.group must be scoped by github.ref")
        && !ScopedByRef(concurrency))
    || (v == Violation("workflow-concurrency", rel, "concurrency.cancel-in-progress must be true or conditional")
        && !Cancels(concurrency))
  }

  ghost predicate HasJobs(data: seq<Entry>, jobs: seq<Entry>) {
    Has(data, Name("jobs"), Map(jobs)) && jobs != []
  }

  /** The file holds a mapping, or nothing. */
  ghost predicate IsDocument(p: Parse, data: seq<Entry>) {
    p == Parsed(Map(data)) || (p.Parsed? && Empty(p.y) && data == [])
  }

  ghost predicate Unreadable(p: Parse, msg: string) {
    p == ParseError(msg) || (p.Parsed? && !Empty(p.y) && !p.y.Map? && msg == "top level must be a mapping")
  }

  ghost predicate WorkflowViolates(str: Yaml -> string, w: Workflow, v: Violation) {
    || (exists msg :: Unreadable(w.parse, msg) && v == Violation("workflow-yaml", w.rel, msg))
    || (exists data :: IsDocument(w.parse, data) && (DocumentViolates(w, data, v) || JobsViolate(str, w, data, v)))
  }

  ghost predicate JobsViolate(str: Yaml -> string, w: Workflow, data: seq<Entry>, v: Violation) {
    || (v == Violation("workflow-jobs", w.rel, "workflow must define jobs") && !exists jobs :: HasJobs(data, jobs))
    || exists jobs: seq<Entry>, e :: HasJobs(data, jobs) && e in jobs && JobViolates(str, w.rel, e.key, e.value, v)
  }

  ghost predicate IsNamed(w: Workflow, name: string) {
    exists data :: IsDocument(w.parse, data) && Has(data, Name("name"), Str(name))
  }

  /** At least forty characters from the first that is no blank to the last. */
  ghost predicate Substantive(text: string) {
    exists i, j :: 0 <= i && i + 40 <= j + 1 && j < |text| && !IsBlank(text[i]) && !IsBlank(text[j])
  }

  ghost predicate Violates(policy: Policy, repo: Repo, v: Violation) {
    || (v == Violation("required-file", v.path, "missing or empty")
        && v.path in policy.required && (v.path in repo.files ==> repo.files[v.path] == ""))
    || (v == Violation("instruction-source", v.path, "must remain a substantive universal instruction source")
        && v.path in policy.instructions && (v.path in repo.files ==> !Substantive(repo.files[v.path])))
    || (v == Violation("nested-instructions", v.path, "declared nested instruction file is missing")
        && v.path in policy.nested && v.path !in repo.files)
    || (exists w :: w in repo.workflows && WorkflowViolates(repo.str, w, v))
    || (v == Violation("required-workflow", v.path, "stable workflow name not found")
        && v.path in policy.requiredWorkflows && !exists w :: w in repo.workflows && IsNamed(w, v.path))
  }

  /** The last exception for this code and path, a missing path standing for the star, gives a reason. */
  ghost predicate GivesReason(ex: seq<Waiver>, code: string, path: string) {
    exists i :: 0 <= i < |ex| && IsFor(ex[i], code, path) && ex[i].reason != ""
                && forall j :: i < j < |ex| ==> !IsFor(ex[j], code, path)
  }

  predicate IsFor(w: Waiver, code: string, path: string) {
    w.code == code && (w.path == Some(path) || (w.path == None && path == "*"))
  }

  ghost predicate Excused(ex: seq<Waiver>, v: Violation) {
    GivesReason(ex, v.code, v.path) || GivesReason(ex, v.code, "*")
  }

  // ---------------------------------------------------------------- lookups

  lemma {:induction false} GetHas(entries: seq<Entry>, key: Key)
    ensures forall y :: Get(entries, key) == Some(y) <==> Has(entries, key, y)
    ensures Get(entries, key) == None <==> Missing(entries, key)
  {
    if entries != [] {
      var rest := entries[1..];
      GetHas(rest, key);
      assert forall i :: 0 <= i < |rest| ==> rest[i] == entries[i + 1];
      if entries[0].key == key {
        assert FirstAt(entries, 0, key);
        assert forall i :: FirstAt(entries, i, key) ==> i == 0;
      } else {
        forall i
          ensures FirstAt(rest, i, key) <==> i >= 0 && FirstAt(entries, i + 1, key)
        {
          FirstAtRest(entries, i, key);
        }
        hide FirstAt;
        assert !FirstAt(entries, 0, key) by { NotFirst(entries, key); }
        forall y
          ensures Has(rest, key, y) <==> Has(entries, key, y)
        {
          HasRest(entries, key, y);
        }
      }
    }
  }

  lemma FirstAtRest(entries: seq<Entry>, i: int, key: Key)
    requires entries != [] && entries[0].key != key
    ensures FirstAt(entries[1..], i, key) <==> i >= 0 && FirstAt(entries, i + 1, key)
  {
    var rest := entries[1..];
    assert forall k :: 0 <= k < |rest| ==> rest[k] == entries[k + 1];
  }

  lemma NotFirst(entries: seq<Entry>, key: Key)
    requires entries != [] && entries[0].key != key
    ensures !FirstAt(entries, 0, key)
  {
  }

  lemma HasRest(entries: seq<Entry>, key: Key, y: Yaml)
    requires entries != [] && entries[0].key != key
    ensures Has(entries[1..], key, y) <==> Has(entries, key, y)
  {
    var rest := entries[1..];
    NotFirst(entries, key);
    hide FirstAt;
    if Has(rest, key, y) {
      var i :| FirstAt(rest, i, key) && rest[i].value == y;
      FirstAtRest(entries, i, key);
      assert entries[i + 1].value == y;
    }
    if Has(entries, key, y) {
      var i :| FirstAt(entries, i, key) && entries[i].value == y;
      FirstAtRest(entries, i - 1, key);
      assert rest[i - 1].value == y;
    }
  }

  lemma EmptyIff(y: Yaml)
    ensures Truthy(y) <==> !Empty(y)
  {
  }

  lemma LoadIff(p: Parse)
    ensures forall data :: Load(p) == Document(data) <==> IsDocument(p, data)
    ensures forall msg :: Load(p) == LoadError(msg) <==> Unreadable(p, msg)
  {
    if p.Parsed? {
      EmptyIff(p.y);
      hide Truthy;
    }
  }

  // ---------------------------------------------------------------- the findings are the violations

  lemma UnpinnedIff(uses: string)
    ensures Unpinned(uses) <==> exists ref :: References(uses, ref) && !FullSha(ref)
  {
    hide MatchRef, References, FullSha;
    if MatchRef(uses).Some? {
      MatchRefIff(uses, MatchRef(uses).value);
    }
    forall ref | References(uses, ref)
      ensures MatchRef(uses) == Some(ref)
    {
      MatchRefIff(uses, ref);
    }
  }

  lemma StepFound(rel: string, step: Yaml, v: Violation)
    requires StepFindings(rel, step).Some?
    ensures v in StepFindings(rel, step).value <==> StepViolates(rel, step, v)
  {
    hide Unpinned, Get, Has, WithValues, UseViolates, If;
    if step.Map? {
      GetHas(step.entries, Name("uses"));
      var found := Get(step.entries, Name("uses"));
      if found.Some? && found.value.Str? {
        UseFound(rel, step, found.value.s, v);
        assert Uses(step.entries, found.value.s);
      }
    }
  }

  lemma UseFound(rel: string, step: Yaml, uses: string, v: Violation)
    requires step.Map? && Get(step.entries, Name("uses")) == Some(Str(uses)) && StepFindings(rel, step).Some?
    ensures v in StepFindings(rel, step).value <==> UseViolates(rel, step.entries, uses, v)
  {
    UnpinnedIff(uses);
    CredentialsIff(step.entries);
    hide Unpinned, References, FullSha, Get, WithValues, DropsCredentials, If;
    IfFound(Unpinned(uses), "action-pin", rel, uses + " is not pinned to a full commit SHA", v);
    if "actions/checkout@" <= uses {
      var given := WithValues(step.entries).value;
      IfFound(Get(given, Name("persist-credentials")) != Some(Bool(false)), "checkout-credentials", rel,
              "actions/checkout must set persist-credentials: false", v);
    }
  }

  lemma CredentialsIff(step: seq<Entry>)
    ensures WithValues(step).Some? ==>
              (Get(WithValues(step).value, Name("persist-credentials")) == Some(Bool(false)) <==>
               DropsCredentials(step))
  {
    GetHas(step, Name("with"));
    var found := Get(step, Name("with"));
    if found.Some? && found.value.Map? {
      GetHas(found.value.entries, Name("persist-credentials"));
    }
    assert Get([], Name("persist-credentials")) == None;
    hide Get, Has;
    if found.Some? && found.value.Map? {
      var given := found.value.entries;
      assert WithValues(step) == Some(given);
      assert Has(step, Name("with"), Map(given));
    }
  }

  lemma StepsIff(job: seq<Entry>, step: Yaml)
    requires StepsOf(job).Some?
    ensures step in StepsOf(job).value <==> HasStep(job, step)
  {
    GetHas(job, Name("steps"));
    hide Get, Has;
    var found := Get(job, Name("steps"));
    if found.Some? && found.value.List? {
      assert Has(job, Name("steps"), List(found.value.items));
    }
  }

  lemma {:induction false} StepsFound(rel: string, steps: seq<Yaml>, v: Violation)
    requires StepsFindings(rel, steps).Some?
    ensures v in StepsFindings(rel, steps).value <==> exists step :: step in steps && StepViolates(rel, step, v)
  {
    hide StepFindings, StepViolates;
    if steps != [] {
      StepFound(rel, steps[0], v);
      StepsFound(rel, steps[1..], v);
      assert forall s :: s in steps <==> s == steps[0] || s in steps[1..];
    }
  }

  lemma ConditionIff(job: seq<Entry>, cond: Yaml)
    ensures Condition(job, cond) <==> cond == GetOr(job, "if", Str(""))
  {
    GetHas(job, Name("if"));
    hide Get, Has;
  }

  lemma JobFound(str: Yaml -> string, rel: string, id: Key, job: Yaml, v: Violation)
    requires JobFindings(str, rel, id, job).Some?
    ensures v in JobFindings(str, rel, id, job).value <==> JobViolates(str, rel, id, job, v)
  {
    NamedJobFound(str, rel, id, job, v);
    assert forall text :: Shows(id, text) <==> text == KeyText(id);
    hide JobFindings, NamedJobViolates, Shows, KeyText;
  }

  lemma NamedJobFound(str: Yaml -> string, rel: string, id: Key, job: Yaml, v: Violation)
    requires JobFindings(str, rel, id, job).Some?
    ensures v in JobFindings(str, rel, id, job).value <==> NamedJobViolates(str, rel, KeyText(id), job, v)
  {
    hide StepsFindings, StepViolates, Get, Has, Missing, GetOr, Contains, StepsOf, KeyText, HasStep, Condition;
    if job.Map? {
      GetHas(job.entries, Name("timeout-minutes"));
      ConditionIff(job.entries, GetOr(job.entries, "if", Str("")));
      forall cond | Condition(job.entries, cond)
        ensures cond == GetOr(job.entries, "if", Str(""))
      {
        ConditionIff(job.entries, cond);
      }
      StepsFound(rel, StepsOf(job.entries).value, v);
      forall step
        ensures step in StepsOf(job.entries).value <==> HasStep(job.entries, step)
      {
        StepsIff(job.entries, step);
      }
    }
  }

  lemma {:induction false} JobsFound(str: Yaml -> string, rel: string, jobs: seq<Entry>, v: Violation)
    requires JobsFindings(str, rel, jobs).Some?
    ensures v in JobsFindings(str, rel, jobs).value <==>
            exists e :: e in jobs && JobViolates(str, rel, e.key, e.value, v)
  {
    hide JobFindings, JobViolates;
    if jobs != [] {
      JobFound(str, rel, jobs[0].key, jobs[0].value, v);
      JobsFound(str, rel, jobs[1..], v);
      assert forall e :: e in jobs <==> e == jobs[0] || e in jobs[1..];
    }
  }

  lemma NameIff(data: seq<Entry>, name: string)
    ensures NameOf(data) == Some(name) <==> Has(data, Name("name"), Str(name))
  {
    GetHas(data, Name("name"));
    hide Get, Has;
  }

  lemma NameFound(w: Workflow, data: seq<Entry>, v: Violation)
    ensures v in If(NameOf(data).None?, "workflow-name", w.rel, "workflow requires a stable name") <==>
            v == Violation("workflow-name", w.rel, "workflow requires a stable name")
            && !exists name :: Has(data, Name("name"), Str(name))
  {
    forall name
      ensures NameOf(data) == Some(name) <==> Has(data, Name("name"), Str(name))
    {
      NameIff(data, name);
    }
    hide Has, NameOf, If;
    IfFound(NameOf(data).None?, "workflow-name", w.rel, "workflow requires a stable name", v);
  }

  lemma TopFound(w: Workflow, data: seq<Entry>, v: Violation)
    ensures v in TopFindings(w, data) <==> DocumentViolates(w, data, v)
  {
    ConcurrencyFound(w.rel, data, v);
    EventIff(data, "pull_request_target");
    GetHas(data, Name("permissions"));
    NameFound(w, data, v);
    hide Get, Has, Missing, Contains, HasEvent, NameOf, ConcurrencyFindings, ConcurrencyViolates, If;
    hide Configured, Lists;
    IfFound(Get(data, Name("permissions")).None?, "workflow-permissions", w.rel,
            "top-level permissions are required", v);
    IfFound(HasEvent(data, "pull_request_target"), "pull-request-target", w.rel,
            "pull_request_target is prohibited", v);
    IfFound(Contains(w.text, "ref: ${{ github.head_ref }}"), "fork-checkout", w.rel,
            "pull request jobs must use the read-only event checkout", v);
  }

  lemma IfFound(cond: bool, code: string, path: string, message: string, v: Violation)
    ensures v in If(cond, code, path, message) <==> cond && v == Violation(code, path, message)
  {
  }

  lemma EventIff(data: seq<Entry>, event: string)
    ensures HasEvent(data, event) <==> exists on :: Configured(data, on) && Lists(on, event)
  {
    GetHas(data, Name("on"));
    GetHas(data, Flag(true));
    var on := Events(data);
    GetHas([], Name(event));
    if on.Map? {
      GetHas(on.entries, Name(event));
    }
    hide Get, Has, Missing;
    assert HasEvent(data, event) <==> Lists(on, event);
    assert forall y :: Configured(data, y) ==> y == on;
    assert Configured(data, on) || on == Map([]);
  }

  lemma EitherFound(a: bool, b: bool, code: string, path: string, first: string, second: string, v: Violation)
    ensures v in If(a, code, path, first) + If(b, code, path, second) <==>
            (a && v == Violation(code, path, first)) || (b && v == Violation(code, path, second))
  {
  }

  lemma ConcurrencyFound(rel: string, data: seq<Entry>, v: Violation)
    ensures v in ConcurrencyFindings(rel, data) <==> ConcurrencyViolates(rel, data, v)
  {
    GetHas(data, Name("concurrency"));
    hide Get, Has, BadGroup, BadCancel, ScopedByRef, Cancels, If;
    var found := Get(data, Name("concurrency"));
    if found.Some? && found.value.Map? {
      var c := found.value.entries;
      GroupIff(c);
      CancelIff(c);
      EitherFound(BadGroup(c), BadCancel(c), "workflow-concurrency", rel,
                  "concurrency.group must be scoped by github.ref",
                  "concurrency.cancel-in-progress must be true or conditional", v);
      assert Has(data, Name("concurrency"), Map(c));
    } else {
      IfFound(true, "workflow-concurrency", rel, "concurrency must define group and cancellation", v);
    }
  }

  lemma GroupIff(concurrency: seq<Entry>)
    ensures BadGroup(concurrency) <==> !ScopedByRef(concurrency)
  {
    GetHas(concurrency, Name("group"));
    hide Get, Has, Contains;
    var found := Get(concurrency, Name("group"));
    if found.Some? && found.value.Str? {
      var group := found.value.s;
      assert Has(concurrency, Name("group"), Str(group));
      ContainsIff(group, "github.ref");
      assert |"github.ref"| == 10;
      if Contains(group, "github.ref") {
        var i :| 0 <= i <= |group| - 10 && group[i..][..10] == "github.ref";
        assert RefAt(group, i);
      }
    }
  }

  lemma CancelIff(concurrency: seq<Entry>)
    ensures BadCancel(concurrency) <==> !Cancels(concurrency)
  {
    GetHas(concurrency, Name("cancel-in-progress"));
    hide Get, Has, Strip;
    var found := Get(concurrency, Name("cancel-in-progress"));
    if found.Some? && found.value.Str? {
      assert Has(concurrency, Name("cancel-in-progress"), Str(found.value.s));
      StripOpensIff(found.value.s);
    }
  }

  lemma StripOpensIff(s: string)
    ensures "${{" <= Strip(s, IsBlank) <==> exists n :: ExpressionAt(s, n)
  {
    var i, j := StripIs(s, IsBlank);
    assert !IsBlank('$') && !IsBlank('{');
    hide IsBlank, Strip;
    if "${{" <= s[i..j] {
      assert ExpressionAt(s, i);
    }
    forall n | ExpressionAt(s, n)
      ensures n == i && j >= n + 3
    {
      assert s[n] == '$' && s[n + 1] == '{' && s[n + 2] == '{';
    }
  }

  lemma JobsIff(data: seq<Entry>)
    ensures JobsOf(data).Map? ==>
              forall jobs :: HasJobs(data, jobs) <==> jobs == JobsOf(data).entries && jobs != []
    ensures !JobsOf(data).Map? ==> forall jobs :: !HasJobs(data, jobs)
  {
    GetHas(data, Name("jobs"));
    hide Get, Has;
  }

  lemma AllJobsFound(str: Yaml -> string, w: Workflow, data: seq<Entry>, v: Violation)
    requires Load(w.parse) == Document(data) && WorkflowFindings(str, w).Some?
    ensures v in WorkflowFindings(str, w).value <==> DocumentViolates(w, data, v) || JobsViolate(str, w, data, v)
  {
    TopFound(w, data, v);
    JobsIff(data);
    hide TopFindings, DocumentViolates, JobsFindings, JobViolates, Load, JobsOf, HasJobs, If;
    IfFound(true, "workflow-jobs", w.rel, "workflow must define jobs", v);
    var jobs := JobsOf(data);
    if jobs.Map? && jobs.entries != [] {
      JobsFound(str, w.rel, jobs.entries, v);
      assert HasJobs(data, jobs.entries);
    }
  }

  lemma WorkflowFound(str: Yaml -> string, w: Workflow, v: Violation)
    requires WorkflowFindings(str, w).Some?
    ensures v in WorkflowFindings(str, w).value <==> WorkflowViolates(str, w, v)
  {
    LoadIff(w.parse);
    hide TopFindings, JobsFindings, DocumentViolates, JobsViolate, Load, IsDocument, Unreadable, If;
    match Load(w.parse) {
      case LoadError(msg) =>
        IfFound(true, "workflow-yaml", w.rel, msg, v);
        assert Unreadable(w.parse, msg);
      case Document(data) =>
        AllJobsFound(str, w, data, v);
        assert IsDocument(w.parse, data);
    }
  }

  lemma {:induction false} WorkflowsFound(str: Yaml -> string, ws: seq<Workflow>, v: Violation)
    requires WorkflowsFindings(str, ws).Some?
    ensures v in WorkflowsFindings(str, ws).value <==> exists w :: w in ws && WorkflowViolates(str, w, v)
  {
    hide WorkflowFindings, WorkflowViolates;
    if ws != [] {
      WorkflowFound(str, ws[0], v);
      WorkflowsFound(str, ws[1..], v);
      assert forall w :: w in ws <==> w == ws[0] || w in ws[1..];
    }
  }

  lemma SubstantiveIff(text: string)
    ensures |Strip(text, IsBlank)| >= 40 <==> Substantive(text)
  {
    var i, j := StripIs(text, IsBlank);
    hide IsBlank, Strip;
    if j - i >= 40 {
      assert !IsBlank(text[i]) && !IsBlank(text[j - 1]);
    }
  }

  lemma {:induction false} FilesFound(repo: Repo, paths: seq<string>, v: Violation)
    ensures v in RequiredFindings(repo, paths) <==>
            v == Violation("required-file", v.path, "missing or empty")
            && v.path in paths && (v.path in repo.files ==> repo.files[v.path] == "")
    ensures v in InstructionFindings(repo, paths) <==>
            v == Violation("instruction-source", v.path, "must remain a substantive universal instruction source")
            && v.path in paths && (v.path in repo.files ==> !Substantive(repo.files[v.path]))
    ensures v in NestedFindings(repo, paths) <==>
            v == Violation("nested-instructions", v.path, "declared nested instruction file is missing")
            && v.path in paths && v.path !in repo.files
  {
    if paths != [] {
      var p := paths[0];
      FilesFound(repo, paths[1..], v);
      var thin := p in repo.files ==> !Substantive(repo.files[p]);
      assert ThinInstruction(repo, p) <==> thin by {
        if p in repo.files {
          SubstantiveIff(repo.files[p]);
        }
      }
      hide ThinInstruction, Substantive, If;
      IfFound(MissingFile(repo, p), "required-file", p, "missing or empty", v);
      IfFound(ThinInstruction(repo, p), "instruction-source", p,
              "must remain a substantive universal instruction source", v);
      IfFound(p !in repo.files, "nested-instructions", p, "declared nested instruction file is missing", v);
      assert forall p :: p in paths <==> p == paths[0] || p in paths[1..];
    }
  }

  lemma WorkflowNameIff(w: Workflow, name: string)
    ensures name in WorkflowName(w) <==> IsNamed(w, name)
  {
    LoadIff(w.parse);
    hide Load, IsDocument, NameOf, Has, Unreadable;
    match Load(w.parse) {
      case LoadError(_) =>
      case Document(data) => NameIff(data, name);
    }
  }

  lemma {:induction false} NamesFound(ws: seq<Workflow>, name: string)
    ensures name in Names(ws) <==> exists w :: w in ws && IsNamed(w, name)
  {
    hide WorkflowName, IsNamed;
    if ws != [] {
      WorkflowNameIff(ws[0], name);
      NamesFound(ws[1..], name);
      assert forall w :: w in ws <==> w == ws[0] || w in ws[1..];
    }
  }

  lemma {:induction false} MissingWorkflowsFound(names: set<string>, required: seq<string>, v: Violation)
    ensures v in MissingWorkflows(names, required) <==>
            v == Violation("required-workflow", v.path, "stable workflow name not found")
            && v.path in required && v.path !in names
  {
    if required != [] {
      MissingWorkflowsFound(names, required[1..], v);
      assert forall p :: p in required <==> p == required[0] || p in required[1..];
    }
  }

  /** An audit that is not cut short finds exactly the violations of the policy. */
  lemma FindingsAreViolations(policy: Policy, repo: Repo, v: Violation)
    requires Findings(policy, repo).Some?
    ensures v in Findings(policy, repo).value <==> Violates(policy, repo, v)
  {
    hide WorkflowsFindings, RequiredFindings, InstructionFindings, NestedFindings, MissingWorkflows, Names;
    hide IsNamed, WorkflowViolates, Substantive;
    FilesFound(repo, policy.required, v);
    FilesFound(repo, policy.instructions, v);
    FilesFound(repo, policy.nested, v);
    WorkflowsFound(repo.str, repo.workflows, v);
    NamesFound(repo.workflows, v.path);
    MissingWorkflowsFound(Names(repo.workflows), policy.requiredWorkflows, v);
  }

  // ---------------------------------------------------------------- documents that end the audit

  /** The step checks out with something under `with` that is truthy and no mapping. */
  ghost predicate StepRaises(step: Yaml) {
    step.Map? && exists uses, given ::
      Uses(step.entries, uses) && "actions/checkout@" <= uses
      && Has(step.entries, Name("with"), given) && !Empty(given) && !given.Map?
  }

  /** The steps of the job are a truthy scalar that cannot be iterated, or hold such a step. */
  ghost predicate JobRaises(job: Yaml) {
    job.Map? && exists steps :: Has(job.entries, Name("steps"), steps) && StepListRaises(steps)
  }

  ghost predicate StepListRaises(steps: Yaml) {
    match steps
    case Bool(b) => b
    case Number(n) => n != 0
    case List(items) => exists step :: step in items && StepRaises(step)
    case _ => false
  }

  ghost predicate WorkflowRaises(w: Workflow) {
    exists data, jobs: seq<Entry>, e ::
      IsDocument(w.parse, data) && HasJobs(data, jobs) && e in jobs && JobRaises(e.value)
  }

  lemma StepRaisesIff(rel: string, step: Yaml)
    ensures StepFindings(rel, step).None? <==> StepRaises(step)
  {
    if step.Map? {
      GetHas(step.entries, Name("uses"));
      GetHas(step.entries, Name("with"));
      var uses, given := Get(step.entries, Name("uses")), Get(step.entries, Name("with"));
      if given.Some? {
        EmptyIff(given.value);
      }
      hide Get, Has, Unpinned, If, Truthy, Empty;
      WithIff(step.entries);
      hide WithValues;
      if uses.Some? && uses.value.Str? {
        assert Uses(step.entries, uses.value.s);
      }
    }
  }

  lemma WithIff(step: seq<Entry>)
    ensures WithValues(step).None? <==>
            exists given :: Has(step, Name("with"), given) && !Empty(given) && !given.Map?
  {
    GetHas(step, Name("with"));
    var given := GetOr(step, "with", Map([]));
    EmptyIff(given);
    hide Get, Has, Truthy;
    assert forall y :: Has(step, Name("with"), y) ==> y == given;
  }

  lemma {:induction false} StepsRaiseIff(rel: string, steps: seq<Yaml>)
    ensures StepsFindings(rel, steps).None? <==> exists step :: step in steps && StepRaises(step)
  {
    hide StepFindings, StepRaises;
    if steps != [] {
      StepRaisesIff(rel, steps[0]);
      StepsRaiseIff(rel, steps[1..]);
      assert forall s :: s in steps <==> s == steps[0] || s in steps[1..];
    }
  }

  lemma StepListRaisesIff(rel: string, job: seq<Entry>)
    ensures (StepsOf(job).None? || StepsFindings(rel, StepsOf(job).value).None?) <==>
            exists steps :: Has(job, Name("steps"), steps) && StepListRaises(steps)
  {
    GetHas(job, Name("steps"));
    hide Get, Has, StepsFindings, StepRaises;
    StepsRaiseIff(rel, []);
    var found := Get(job, Name("steps"));
    if found.Some? && found.value.List? {
      StepsRaiseIff(rel, found.value.items);
    }
  }

  lemma JobRaisesIff(str: Yaml -> string, rel: string, id: Key, job: Yaml)
    ensures JobFindings(str, rel, id, job).None? <==> JobRaises(job)
  {
    hide Get, GetOr, Has, StepsOf, StepsFindings, StepListRaises, Contains, If, KeyText;
    if job.Map? {
      StepListRaisesIff(rel, job.entries);
    }
  }

  lemma {:induction false} JobsRaiseIff(str: Yaml -> string, rel: string, jobs: seq<Entry>)
    ensures JobsFindings(str, rel, jobs).None? <==> exists e :: e in jobs && JobRaises(e.value)
  {
    hide JobFindings, JobRaises;
    if jobs != [] {
      JobRaisesIff(str, rel, jobs[0].key, jobs[0].value);
      JobsRaiseIff(str, rel, jobs[1..]);
      assert forall e :: e in jobs <==> e == jobs[0] || e in jobs[1..];
    }
  }

  lemma WorkflowRaisesIff(str: Yaml -> string, w: Workflow)
    ensures WorkflowFindings(str, w).None? <==> WorkflowRaises(w)
  {
    LoadIff(w.parse);
    hide TopFindings, JobsFindings, JobRaises, Load, JobsOf, HasJobs, IsDocument, Unreadable, If;
    var loaded := Load(w.parse);
    if loaded.Document? {
      var data := loaded.entries;
      JobsIff(data);
      var jobs := JobsOf(data);
      assert IsDocument(w.parse, data);
      if jobs.Map? && jobs.entries != [] {
        JobsRaiseIff(str, w.rel, jobs.entries);
        assert HasJobs(data, jobs.entries);
      }
    }
  }

  lemma {:induction false} WorkflowsRaiseIff(str: Yaml -> string, ws: seq<Workflow>)
    ensures WorkflowsFindings(str, ws).None? <==> exists w :: w in ws && WorkflowRaises(w)
  {
    hide WorkflowFindings, WorkflowRaises;
    if ws != [] {
      WorkflowRaisesIff(str, ws[0]);
      WorkflowsRaiseIff(str, ws[1..]);
      assert forall w :: w in ws <==> w == ws[0] || w in ws[1..];
    }
  }

  /** The audit loses its findings to an exception exactly where some workflow is of that kind. */
  lemma FindingsLostIff(policy: Policy, repo: Repo)
    ensures Findings(policy, repo).None? <==> exists w :: w in repo.workflows && WorkflowRaises(w)
  {
    hide WorkflowsFindings, RequiredFindings, InstructionFindings, NestedFindings, MissingWorkflows, Names;
    hide WorkflowRaises;
    WorkflowsRaiseIff(repo.str, repo.workflows);
  }

  // ---------------------------------------------------------------- waivers and the exit code

  /** The reason looked up is not empty exactly where the last item for the key gives one. */
  lemma {:induction false} LookupIff(ex: seq<Waiver>, code: string, path: string)
    ensures Lookup(ex, code, path) != "" <==> GivesReason(ex, code, path)
  {
    if ex != [] {
      var n := |ex| - 1;
      var init := ex[..n];
      LookupIff(init, code, path);
      assert IsFor(ex[n], code, path) <==> ex[n].code == code && WaiverPath(ex[n]) == path;
      hide Lookup, WaiverPath, IsFor;
      assert Lookup(ex, code, path) == if IsFor(ex[n], code, path) then ex[n].reason else Lookup(init, code, path)
      by {
        LookupAppended(init, ex[n], code, path);
        assert init + [ex[n]] == ex;
        WaiverIs(ex[n], code, path);
      }
      GivesReasonLast(ex, code, path);
    }
  }

  lemma WaiverIs(w: Waiver, code: string, path: string)
    ensures IsFor(w, code, path) <==> w.code == code && WaiverPath(w) == path
  {
  }

  lemma GivesReasonLast(ex: seq<Waiver>, code: string, path: string)
    requires ex != []
    ensures var last := ex[|ex| - 1];
            GivesReason(ex, code, path) <==>
            if IsFor(last, code, path) then last.reason != "" else GivesReason(ex[..|ex| - 1], code, path)
  {
    var n := |ex| - 1;
    var init := ex[..n];
    hide IsFor;
    assert forall i :: 0 <= i < n ==> init[i] == ex[i];
    if GivesReason(ex, code, path) {
      var i :| 0 <= i < |ex| && IsFor(ex[i], code, path) && ex[i].reason != ""
               && forall j :: i < j < |ex| ==> !IsFor(ex[j], code, path);
      assert i == n || IsFor(init[i], code, path);
    }
    if !IsFor(ex[n], code, path) && GivesReason(init, code, path) {
      var i :| 0 <= i < n && IsFor(init[i], code, path) && init[i].reason != ""
               && forall j :: i < j < n ==> !IsFor(init[j], code, path);
      assert IsFor(ex[i], code, path);
      assert forall j :: i < j < n ==> ex[j] == init[j];
    }
  }

  lemma WaivedIff(ex: seq<Waiver>, v: Violation)
    ensures IsWaived(ex, v) <==> Excused(ex, v)
  {
    LookupIff(ex, v.code, v.path);
    LookupIff(ex, v.code, "*");
    hide Lookup, GivesReason;
  }

  lemma {:induction false} SortedOnce(ex: seq<Waiver>, vs: seq<Violation>, v: Violation)
    ensures v in Failing(ex, vs) <==> v in vs && !IsWaived(ex, v)
    ensures v in Waiving(ex, vs) <==> v in vs && IsWaived(ex, v)
    ensures |Failing(ex, vs)| + |Waiving(ex, vs)| == |vs|
  {
    hide IsWaived;
    if vs != [] {
      SortedOnce(ex, vs[1..], v);
      assert forall x :: x in vs <==> x == vs[0] || x in vs[1..];
    }
  }

  /** The audit exits 0 exactly when no workflow makes it raise, the policy names a scanner mode, and every
      violation of the policy has a non-empty reason under its own path or, failing that, under the star; it
      ends in an exception exactly when a workflow makes it raise or, all else passing, the mode is missing. */
  lemma ExitZeroIff(policy: Policy, repo: Repo)
    ensures var raises := exists w :: w in repo.workflows && WorkflowRaises(w);
            var excused := forall v :: Violates(policy, repo, v) ==> Excused(policy.exceptions, v);
            && (ExitOf(policy, repo) == Code(0) <==> !raises && excused && policy.scannerMode.Some?)
            && (ExitOf(policy, repo) == Uncaught <==> raises || (excused && policy.scannerMode.None?))
            && (ExitOf(policy, repo) == Code(1) <==> !raises && !excused)
  {
    FindingsLostIff(policy, repo);
    hide Findings, Violates, IsWaived, Excused, WorkflowRaises;
    if Findings(policy, repo).Some? {
      var vs := Findings(policy, repo).value;
      var failing := Failing(policy.exceptions, vs);
      forall v
        ensures v in failing <==> Violates(policy, repo, v) && !Excused(policy.exceptions, v)
      {
        WaivedIff(policy.exceptions, v);
        SortedOnce(policy.exceptions, vs, v);
        FindingsAreViolations(policy, repo, v);
      }
      hide Failing;
      if failing != [] {
        assert failing[0] in failing;
      }
    }
  }

  lemma LookupAppended(ex: seq<Waiver>, w: Waiver, code: string, path: string)
    ensures Lookup(ex + [w], code, path) ==
            if w.code == code && WaiverPath(w) == path then w.reason else Lookup(ex, code, path)
  {
    var all := ex + [w];
    assert all[|all| - 1] == w && all[..|all| - 1] == ex;
  }

  lemma {:induction false} LookupPrepended(ex: seq<Waiver>, w: Waiver, code: string, path: string)
    ensures Lookup([w] + ex, code, path) == Lookup(ex, code, path)
            || (Lookup(ex, code, path) == "" && Lookup([w] + ex, code, path) == w.reason)
    decreases |ex|
  {
    var all := [w] + ex;
    if ex == [] {
      assert all[..0] == [];
    } else {
      var n := |ex| - 1;
      assert all[..|all| - 1] == [w] + ex[..n];
      LookupPrepended(ex[..n], w, code, path);
    }
  }

  /** Appending an item leaves a waived violation waived whenever its reason is not empty; putting any
      item first, before those already there, does so whatever its reason. */
  lemma MoreWaiversKeepWaived(ex: seq<Waiver>, w: Waiver, v: Violation)
    requires IsWaived(ex, v)
    ensures w.reason != "" ==> IsWaived(ex + [w], v)
    ensures IsWaived([w] + ex, v)
  {
    LookupAppended(ex, w, v.code, v.path);
    LookupAppended(ex, w, v.code, "*");
    LookupPrepended(ex, w, v.code, v.path);
    LookupPrepended(ex, w, v.code, "*");
    hide Lookup, WaiverPath;
  }

  lemma {:induction false} FailingMonotone(ex: seq<Waiver>, ex': seq<Waiver>, vs: seq<Violation>)
    requires Failing(ex, vs) == [] && forall v :: IsWaived(ex, v) ==> IsWaived(ex', v)
    ensures Failing(ex', vs) == []
  {
    hide IsWaived;
    if vs != [] {
      FailingMonotone(ex, ex', vs[1..]);
    }
  }

  /** Adding a reasoned waiver at the end, or any waiver at the front, never turns a pass into a fail. */
  lemma AddedWaiverKeepsPass(policy: Policy, repo: Repo, w: Waiver)
    requires ExitOf(policy, repo) == Code(0)
    ensures w.reason != "" ==> ExitOf(policy.(exceptions := policy.exceptions + [w]), repo) == Code(0)
    ensures ExitOf(policy.(exceptions := [w] + policy.exceptions), repo) == Code(0)
  {
    var ex := policy.exceptions;
    forall v | IsWaived(ex, v)
      ensures (w.reason != "" ==> IsWaived(ex + [w], v)) && IsWaived([w] + ex, v)
    {
      MoreWaiversKeepWaived(ex, w, v);
    }
    SameFindings(policy, repo, ex + [w]);
    SameFindings(policy, repo, [w] + ex);
    hide Findings, IsWaived;
    var vs := Findings(policy, repo).value;
    hide Failing;
    FailingMonotone(ex, [w] + ex, vs);
    if w.reason != "" {
      FailingMonotone(ex, ex + [w], vs);
    }
  }

  lemma SameFindings(policy: Policy, repo: Repo, ex: seq<Waiver>)
    ensures Findings(policy.(exceptions := ex), repo) == Findings(policy, repo)
  {
    hide WorkflowsFindings, RequiredFindings, InstructionFindings, NestedFindings, MissingWorkflows, Names;
  }

  /** A waiver appended without a reason takes the place of an earlier one for the same key: it changes the
      standing of a waived violation exactly when the remaining star, or exact, reason is empty too. */
  lemma EmptyWaiverRevokesIff(ex: seq<Waiver>, w: Waiver, v: Violation)
    requires w.reason == "" && Excused(ex, v)
    ensures !Excused(ex + [w], v) <==>
            && (IsFor(w, v.code, v.path) || !GivesReason(ex, v.code, v.path))
            && (IsFor(w, v.code, "*") || !GivesReason(ex, v.code, "*"))
  {
    GivesReasonLast(ex + [w], v.code, v.path);
    GivesReasonLast(ex + [w], v.code, "*");
    assert (ex + [w])[..|ex|] == ex;
    hide GivesReason, IsFor;
  }
}

/** The repository control audit: workflow documents, the nested audit loops, waivers and the exit code. */
module ControlAudit {
  import opened Text
  import opened ActionPin

  // ---------------------------------------------------------------- documents

  /** A mapping key; YAML 1.1 reads a bare `on` as the boolean true. */
  datatype Key = Name(s: string) | Flag(b: bool) | OtherKey(text: string)

  datatype Yaml =
    | Null
    | Bool(b: bool)
    | Number(n: int)
    | Str(s: string)
    | List(items: seq<Yaml>)
    | Map(entries: seq<Entry>)

  datatype Entry = Entry(key: Key, value: Yaml)

  predicate Truthy(y: Yaml) {
    match y
    case Null => false
    case Bool(b) => b
    case Number(n) => n != 0
    case Str(s) => s != ""
    case List(items) => items != []
    case Map(entries) => entries != []
  }

  /** `data.get(key)`. */
  function Get(entries: seq<Entry>, key: Key): Option<Yaml> {
    if entries == [] then None
    else if entries[0].key == key then Some(entries[0].value)
    else Get(entries[1..], key)
  }

  function GetOr(entries: seq<Entry>, name: string, default: Yaml): Yaml {
    match Get(entries, Name(name)) case Some(y) => y case None => default
  }

  function KeyText(k: Key): string {
    match k case Name(s) => s case Flag(b) => if b then "True" else "False" case OtherKey(t) => t
  }

  /** A workflow file; the YAML parser's verdict on its text is given. */
  datatype Parse = ParseError(msg: string) | Parsed(y: Yaml)
  datatype Workflow = Workflow(rel: string, text: string, parse: Parse)

  /** `load_yaml`: an empty document is an empty mapping, any other non-mapping is an error. */
  datatype Loaded = LoadError(msg: string) | Document(entries: seq<Entry>)

  function Load(p: Parse): Loaded {
    match p
    case ParseError(msg) => LoadError(msg)
    case Parsed(y) =>
      if !Truthy(y) then Document([])
      else if y.Map? then Document(y.entries) else LoadError("top level must be a mapping")
  }

  datatype Waiver = Waiver(code: string, path: Option<string>, reason: string)

  datatype Policy = Policy(required: seq<string>, instructions: seq<string>, nested: seq<string>,
                           requiredWorkflows: seq<string>, exceptions: seq<Waiver>, scannerMode: Option<string>)

  /** Files with their text, the workflow files in path order, and Python's `str` of a value. */
  datatype Repo = Repo(files: map<string, string>, workflows: seq<Workflow>, str: Yaml -> string)

  datatype Violation = Violation(code: string, path: string, message: string)

  type Found = Option<seq<Violation>>

  /** Findings in order; None stands for the exception that ends the audit. */
  function Then(a: Found, b: Found): Found {
    if a.None? || b.None? then None else Some(a.value + b.value)
  }

  function If(cond: bool, code: string, path: string, message: string): seq<Violation> {
    if cond then [Violation(code, path, message)] else []
  }

  // ---------------------------------------------------------------- steps and jobs

  predicate Unpinned(uses: string) {
    match MatchRef(uses) case Some(ref) => !FullSha(ref) case None => false
  }

  /** What the checkout step passes: None where `with` is a truthy value without `get`. */
  function WithValues(step: seq<Entry>): Option<seq<Entry>> {
    var given := GetOr(step, "with", Map([]));
    if !Truthy(given) then Some([]) else if given.Map? then Some(given.entries) else None
  }

  function StepFindings(rel: string, step: Yaml): Found {
    if !step.Map? then Some([])
    else match Get(step.entries, Name("uses"))
      case Some(Str(uses)) =>
        var pin := If(Unpinned(uses), "action-pin", rel, uses + " is not pinned to a full commit SHA");
        if "actions/checkout@" <= uses then
          match WithValues(step.entries)
          case None => None
          case Some(given) =>
            Some(pin + If(Get(given, Name("persist-credentials")) != Some(Bool(false)), "checkout-credentials", rel,
                          "actions/checkout must set persist-credentials: false"))
        else Some(pin)
      case _ => Some([])
  }

  function StepsFindings(rel: string, steps: seq<Yaml>): Found {
    if steps == [] then Some([]) else Then(StepFindings(rel, steps[0]), StepsFindings(rel, steps[1..]))
  }

  /** What iterating `steps` yields: characters and keys are never mappings; a truthy scalar raises. */
  function StepsOf(job: seq<Entry>): Option<seq<Yaml>> {
    var steps := GetOr(job, "steps", List([]));
    if !Truthy(steps) then Some([])
    else if steps.List? then Some(steps.items)
    else if steps.Str? || steps.Map? then Some([])
    else None
  }

  function JobFindings(str: Yaml -> string, rel: string, id: Key, job: Yaml): Found {
    if !job.Map? then Some(If(true, "workflow-job", rel, "job " + KeyText(id) + " must be a mapping"))
    else
      var early := If(Get(job.entries, Name("timeout-minutes")).None?, "job-timeout", rel,
                      "job " + KeyText(id) + " requires timeout-minutes")
                   + If(Contains(str(GetOr(job.entries, "if", Str(""))), "head.repo.full_name == github.repository"),
                        "fork-scan", rel, "job " + KeyText(id) + " must not skip fork pull requests");
      match StepsOf(job.entries)
      case None => None
      case Some(steps) => Then(Some(early), StepsFindings(rel, steps))
  }

  function JobsFindings(str: Yaml -> string, rel: string, jobs: seq<Entry>): Found {
    if jobs == [] then Some([])
    else Then(JobFindings(str, rel, jobs[0].key, jobs[0].value), JobsFindings(str, rel, jobs[1..]))
  }

  // ---------------------------------------------------------------- workflows

  /** `data.get("on", data.get(True, {}))`. */
  function Events(data: seq<Entry>): Yaml {
    match Get(data, Name("on"))
    case Some(y) => y
    case None => match Get(data, Flag(true)) case Some(y) => y case None => Map([])
  }

  predicate HasEvent(data: seq<Entry>, event: string) {
    match Events(data)
    case Str(s) => s == event
    case List(items) => Str(event) in items
    case Map(entries) => Get(entries, Name(event)).Some?
    case _ => false
  }

  predicate BadGroup(concurrency: seq<Entry>) {
    match Get(concurrency, Name("group")) case Some(Str(s)) => !Contains(s, "github.ref") case _ => true
  }

  /** Only the value true, or a string that opens an expression, cancels. */
  predicate BadCancel(concurrency: seq<Entry>) {
    match Get(concurrency, Name("cancel-in-progress"))
    case Some(Bool(b)) => !b
    case Some(Str(s)) => !("${{" <= Strip(s, IsBlank))
    case _ => true
  }

  function ConcurrencyFindings(rel: string, data: seq<Entry>): seq<Violation> {
    match Get(data, Name("concurrency"))
    case Some(Map(c)) =>
      If(BadGroup(c), "workflow-concurrency", rel, "concurrency.group must be scoped by github.ref")
      + If(BadCancel(c), "workflow-concurrency", rel, "concurrency.cancel-in-progress must be true or conditional")
    case _ => If(true, "workflow-concurrency", rel, "concurrency must define group and cancellation")
  }

  function TopFindings(w: Workflow, data: seq<Entry>): seq<Violation> {
    If(NameOf(data).None?, "workflow-name", w.rel, "workflow requires a stable name")
    + (If(Get(data, Name("permissions")).None?, "workflow-permissions", w.rel, "top-level permissions are required")
    + (ConcurrencyFindings(w.rel, data)
    + (If(HasEvent(data, "pull_request_target"), "pull-request-target", w.rel, "pull_request_target is prohibited")
    + If(Contains(w.text, "ref: ${{ github.head_ref }}"), "fork-checkout", w.rel,
         "pull request jobs must use the read-only event checkout"))))
  }

  function NameOf(data: seq<Entry>): Option<string> {
    match Get(data, Name("name")) case Some(Str(s)) => Some(s) case _ => None
  }

  function JobsOf(data: seq<Entry>): Yaml {
    GetOr(data, "jobs", Map([]))
  }

  function WorkflowFindings(str: Yaml -> string, w: Workflow): Found {
    match Load(w.parse)
    case LoadError(msg) => Some(If(true, "workflow-yaml", w.rel, msg))
    case Document(data) =>
      var jobs := JobsOf(data);
      Then(Some(TopFindings(w, data)),
           if !jobs.Map? || jobs.entries == [] then Some(If(true, "workflow-jobs", w.rel, "workflow must define jobs"))
           else JobsFindings(str, w.rel, jobs.entries))
  }

  function WorkflowsFindings(str: Yaml -> string, ws: seq<Workflow>): Found {
    if ws == [] then Some([]) else Then(WorkflowFindings(str, ws[0]), WorkflowsFindings(str, ws[1..]))
  }

  function WorkflowName(w: Workflow): set<string> {
    match Load(w.parse)
    case LoadError(_) => {}
    case Document(data) => (match NameOf(data) case Some(s) => {s} case None => {})
  }

  function Names(ws: seq<Workflow>): set<string> {
    if ws == [] then {} else WorkflowName(ws[0]) + Names(ws[1..])
  }

  // ---------------------------------------------------------------- files and the whole audit

  predicate MissingFile(repo: Repo, p: string) {
    p !in repo.files || repo.files[p] == ""
  }

  predicate ThinInstruction(repo: Repo, p: string) {
    p !in repo.files || |Strip(repo.files[p], IsBlank)| < 40
  }

  function RequiredFindings(repo: Repo, paths: seq<string>): seq<Violation> {
    if paths == [] then []
    else If(MissingFile(repo, paths[0]), "required-file", paths[0], "missing or empty")
         + RequiredFindings(repo, paths[1..])
  }

  function InstructionFindings(repo: Repo, paths: seq<string>): seq<Violation> {
    if paths == [] then []
    else If(ThinInstruction(repo, paths[0]), "instruction-source", paths[0],
            "must remain a substantive universal instruction source")
         + InstructionFindings(repo, paths[1..])
  }

  function NestedFindings(repo: Repo, paths: seq<string>): seq<Violation> {
    if paths == [] then []
    else If(paths[0] !in repo.files, "nested-instructions", paths[0], "declared nested instruction file is missing")
         + NestedFindings(repo, paths[1..])
  }

  function MissingWorkflows(names: set<string>, required: seq<string>): seq<Violation> {
    if required == [] then []
    else If(required[0] !in names, "required-workflow", required[0], "stable workflow name not found")
         + MissingWorkflows(names, required[1..])
  }

  function FileFindings(policy: Policy, repo: Repo): seq<Violation> {
    RequiredFindings(repo, policy.required)
    + (InstructionFindings(repo, policy.instructions) + NestedFindings(repo, policy.nested))
  }

  function Findings(policy: Policy, repo: Repo): Found {
    Then(Some(FileFindings(policy, repo)),
         Then(WorkflowsFindings(repo.str, repo.workflows),
              Some(MissingWorkflows(Names(repo.workflows), policy.requiredWorkflows))))
  }

  // ---------------------------------------------------------------- waivers

  function WaiverPath(w: Waiver): string {
    match w.path case Some(p) => p case None => "*"
  }

  /** The dictionary built from the exceptions: the last item for a key counts; "" where there is none. */
  function Lookup(exceptions: seq<Waiver>, code: string, path: string): string {
    if exceptions == [] then ""
    else
      var last := exceptions[|exceptions| - 1];
      if last.code == code && WaiverPath(last) == path then last.reason
      else Lookup(exceptions[..|exceptions| - 1], code, path)
  }

  /** The reason under the exact path, or else under the star; an empty one counts as none. */
  function Reason(exceptions: seq<Waiver>, v: Violation): string {
    var exact := Lookup(exceptions, v.code, v.path);
    if exact != "" then exact else Lookup(exceptions, v.code, "*")
  }

  predicate IsWaived(exceptions: seq<Waiver>, v: Violation) {
    Reason(exceptions, v) != ""
  }

  function Failing(exceptions: seq<Waiver>, vs: seq<Violation>): seq<Violation> {
    if vs == [] then [] else (if IsWaived(exceptions, vs[0]) then [] else [vs[0]]) + Failing(exceptions, vs[1..])
  }

  function Waiving(exceptions: seq<Waiver>, vs: seq<Violation>): seq<Violation> {
    if vs == [] then [] else (if IsWaived(exceptions, vs[0]) then [vs[0]] else []) + Waiving(exceptions, vs[1..])
  }

  datatype Exit = Code(code: int) | Uncaught

  /** The closing line of a passing run names the scanner mode, which raises where the policy has none. */
  function ExitAfter(policy: Policy, failures: seq<Violation>): Exit {
    if failures != [] then Code(1) else if policy.scannerMode.None? then Uncaught else Code(0)
  }

  function ExitOf(policy: Policy, repo: Repo): Exit {
    match Findings(policy, repo)
    case None => Uncaught
    case Some(vs) => ExitAfter(policy, Failing(policy.exceptions, vs))
  }
}

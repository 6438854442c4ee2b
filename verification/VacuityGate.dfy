/** The vacuous-green meta-gate: type-faithful mutation of an oracle's result, classification of a
    harness one target at a time, and the gate's verdict. */
module VacuityGate {
  import opened Text

  // ---------------------------------------------------------------- values and their mutants

  /** Python values by type. A float is named by its bit pattern, a custom object by its identity;
      `Sentinel` is the gate's own stand-in object. */
  datatype Value =
    | Bool(b: bool)
    | Int(i: int)
    | Float(bits: nat)
    | ByteString(bytes: Bytes)
    | Str(s: string)
    | FrozenSet(frozen: set<Value>)
    | Set(elems: set<Value>)
    | Dict(items: map<Value, Value>)
    | List(list: seq<Value>)
    | Tuple(tuple: seq<Value>)
    | NoneValue
    | Custom(id: nat)
    | Sentinel

  /** Floating-point addition of 1.0 on bit patterns. */
  type PlusOne = nat -> nat

  /** `_mutate`. */
  function Mutate(plusOne: PlusOne, v: Value): Value {
    match v
    case Bool(b) => Bool(!b)
    case Int(i) => Int(i + 1)
    case Float(bits) => Float(plusOne(bits))
    case ByteString(bytes) => ByteString(bytes + [0])
    case Str(s) => Str(s + "_MUT")
    case FrozenSet(e) => FrozenSet(if e != {} then {} else {NoneValue})
    case Set(e) => Set(if e != {} then {} else {NoneValue})
    case Dict(m) => Dict(if m != map[] then map[] else map[Str("_vacuity_mut") := NoneValue])
    case List(l) => List(if l != [] then [] else [NoneValue])
    case Tuple(l) => Tuple(if l != [] then [] else [NoneValue])
    case NoneValue => Sentinel
    case Custom(_) => Sentinel
    case Sentinel => Sentinel
  }

  predicate SameType(a: Value, b: Value) {
    match a
    case Bool(_) => b.Bool?
    case Int(_) => b.Int?
    case Float(_) => b.Float?
    case ByteString(_) => b.ByteString?
    case Str(_) => b.Str?
    case FrozenSet(_) => b.FrozenSet?
    case Set(_) => b.Set?
    case Dict(_) => b.Dict?
    case List(_) => b.List?
    case Tuple(_) => b.Tuple?
    case NoneValue => b.NoneValue?
    case Custom(_) => b.Custom?
    case Sentinel => b.Sentinel?
  }

  /** The mutant is a different value of the same type exactly for the builtin types, provided, for a
      float, that adding 1.0 changes it; and it is a different value for everything else but such a
      float and the stand-in itself. */
  lemma MutantIsFaithfulIff(plusOne: PlusOne, v: Value)
    ensures SameType(v, Mutate(plusOne, v)) && Mutate(plusOne, v) != v <==>
            !v.NoneValue? && !v.Custom? && !v.Sentinel? && (v.Float? ==> plusOne(v.bits) != v.bits)
    ensures Mutate(plusOne, v) == v <==> v.Sentinel? || (v.Float? && plusOne(v.bits) == v.bits)
  {
    match v {
      case ByteString(bytes) => assert |bytes + [0]| != |bytes|;
      case Str(s) => assert |s + "_MUT"| != |s|;
      case Dict(m) => assert Str("_vacuity_mut") in map[Str("_vacuity_mut") := NoneValue];
      case _ =>
    }
  }

  /** How a mutant differs: truth flips, a number moves by one, text and bytes grow at the end, and a container
      becomes empty exactly if it was not. */
  lemma MutantShape(plusOne: PlusOne, v: Value)
    ensures var m := Mutate(plusOne, v);
            match v
            case Bool(b) => m == Bool(!b)
            case Int(i) => m == Int(i + 1)
            case Float(bits) => m == Float(plusOne(bits))
            case ByteString(bytes) => bytes < m.bytes
            case Str(s) => s < m.s
            case FrozenSet(e) => m.frozen == {} <==> e != {}
            case Set(e) => m.elems == {} <==> e != {}
            case Dict(d) => |m.items| == 0 <==> |d| != 0
            case List(l) => |m.list| == 0 <==> |l| != 0
            case Tuple(l) => |m.tuple| == 0 <==> |l| != 0
            case _ => m.Sentinel?
  {
  }

  // ---------------------------------------------------------------- harnesses

  /** An oracle, by the token of its arguments. */
  type Oracle = nat -> Value

  /** A module's symbols: `func` or `Class.method`. */
  type Env = map<string, Oracle>

  datatype Result = Returned(code: int) | ReturnedNone | RaisedError | Hung

  datatype Harness = Harness(name: string, env: Env, selfTest: Env -> Result, targets: Option<seq<string>>)

  /** The exit status of the worker process; the system keeps the low byte of what is returned. */
  function ExitCode(r: Result): int {
    match r
    case Returned(code) => code % 256
    case ReturnedNone => 0
    case RaisedError => 1
    case Hung => 124
  }

  /** Green is no result, or a code whose low byte is 0, and neither an error nor a hang. */
  lemma GreenIff(r: Result)
    ensures ExitCode(r) == 0 <==> r == ReturnedNone || (r.Returned? && exists k :: r.code == 256 * k)
    ensures (r == Returned(0) ==> ExitCode(r) == 0) && (r == Returned(1) ==> ExitCode(r) == 1)
    ensures 0 <= ExitCode(r) < 256 && (r == RaisedError ==> ExitCode(r) == 1) && (r == Hung ==> ExitCode(r) == 124)
  {
    if r.Returned? && ExitCode(r) == 0 {
      assert r.code == 256 * (r.code / 256);
    }
  }

  /** `_neuter`: None where the symbol does not resolve or has more than two parts. */
  function Neuter(plusOne: PlusOne, env: Env, target: string): Option<Env> {
    if |Split(target, '.')| > 2 || target !in env then None
    else
      var f := env[target];
      Some(env[target := (x: nat) => Mutate(plusOne, f(x))])
  }

  predicate Resolves(env: Env, target: string) {
    target in env && |Split(target, '.')| <= 2
  }

  /** The environment in which every listed oracle still runs, and its result is mutated. */
  ghost predicate Neutered(plusOne: PlusOne, env: Env, targets: seq<string>, env': Env) {
    env'.Keys == env.Keys
    && forall t, x :: t in env ==> env'[t](x) == if t in targets then Mutate(plusOne, env[t](x)) else env[t](x)
  }

  lemma NeuterIs(plusOne: PlusOne, env: Env, target: string)
    ensures Neuter(plusOne, env, target).Some? <==> Resolves(env, target)
    ensures Resolves(env, target) ==> Neutered(plusOne, env, [target], Neuter(plusOne, env, target).value)
  {
    hide Mutate, Split;
  }

  function NeuterAll(plusOne: PlusOne, env: Env, targets: seq<string>): Option<Env>
    decreases |targets|
  {
    if targets == [] then Some(env)
    else match Neuter(plusOne, env, targets[0])
      case None => None
      case Some(env') => NeuterAll(plusOne, env', targets[1..])
  }

  ghost predicate NoRepeats(ts: seq<string>) {
    forall i, j :: 0 <= i < j < |ts| ==> ts[i] != ts[j]
  }

  lemma {:induction false} NeuterAllIs(plusOne: PlusOne, env: Env, targets: seq<string>)
    requires NoRepeats(targets)
    ensures NeuterAll(plusOne, env, targets).Some? <==> forall t :: t in targets ==> Resolves(env, t)
    ensures NeuterAll(plusOne, env, targets).Some? ==>
              Neutered(plusOne, env, targets, NeuterAll(plusOne, env, targets).value)
    decreases |targets|
  {
    if targets != [] {
      var first, rest := targets[0], targets[1..];
      NeuterIs(plusOne, env, first);
      assert forall t :: t in targets <==> t == first || t in rest;
      assert first !in rest;
      hide Neuter, Mutate, Split;
      if Resolves(env, first) {
        var env' := Neuter(plusOne, env, first).value;
        NeuterAllIs(plusOne, env', rest);
        assert forall t :: Resolves(env', t) <==> Resolves(env, t);
      }
    }
  }

  function NonEmpty(parts: seq<string>): seq<string> {
    if parts == [] then [] else (if parts[0] != "" then [parts[0]] else []) + NonEmpty(parts[1..])
  }

  /** The targets as the worker receives them: joined by commas, split again, empty ones dropped. */
  function Received(targets: seq<string>): seq<string> {
    if targets == [] then [] else NonEmpty(Split(Join(targets, ','), ','))
  }

  /** Exit code of the worker process; an uncaught exception is a red. */
  function RunWorker(plusOne: PlusOne, h: Harness, targets: seq<string>): int {
    match NeuterAll(plusOne, h.env, Received(targets))
    case None => 1
    case Some(env) => ExitCode(h.selfTest(env))
  }

  datatype Status = TEETH | VACUOUS | ERROR

  predicate StaysGreen(plusOne: PlusOne, h: Harness, target: string) {
    RunWorker(plusOne, h, [target]) == 0
  }

  predicate Green(h: Harness) {
    ExitCode(h.selfTest(h.env)) == 0
  }

  function StatusOf(plusOne: PlusOne, h: Harness, targets: seq<string>): Status {
    if !Green(h) then ERROR
    else if exists t :: t in targets && StaysGreen(plusOne, h, t) then VACUOUS
    else TEETH
  }

  /** ERROR is a red control run, VACUOUS a green one with some target that leaves it green alone, and
      TEETH a green one that every single target turns red. */
  lemma StatusIff(plusOne: PlusOne, h: Harness, targets: seq<string>)
    ensures var s := StatusOf(plusOne, h, targets);
            var green := RunWorker(plusOne, h, []) == 0;
            && (s == ERROR <==> !green)
            && (s == VACUOUS <==> green && exists t :: t in targets && RunWorker(plusOne, h, [t]) == 0)
            && (s == TEETH <==> green && forall t :: t in targets ==> RunWorker(plusOne, h, [t]) != 0)
  {
    ControlRun(plusOne, h);
    forall t
      ensures StaysGreen(plusOne, h, t) <==> RunWorker(plusOne, h, [t]) == 0
    {
      StaysGreenIs(plusOne, h, t);
    }
    hide RunWorker, Green, StaysGreen;
  }

  lemma ControlRun(plusOne: PlusOne, h: Harness)
    ensures Green(h) <==> RunWorker(plusOne, h, []) == 0
  {
    assert Received([]) == [];
    assert NeuterAll(plusOne, h.env, []) == Some(h.env);
  }

  lemma StaysGreenIs(plusOne: PlusOne, h: Harness, t: string)
    ensures StaysGreen(plusOne, h, t) <==> RunWorker(plusOne, h, [t]) == 0
  {
    hide RunWorker;
  }

  /** `_classify`. */
  method Classify(plusOne: PlusOne, h: Harness, targets: seq<string>) returns (s: Status)
    ensures s == StatusOf(plusOne, h, targets)
    ensures s == ERROR <==> RunWorker(plusOne, h, []) != 0
    ensures s == VACUOUS <==>
            RunWorker(plusOne, h, []) == 0 && exists t :: t in targets && RunWorker(plusOne, h, [t]) == 0
    ensures s == TEETH <==>
            RunWorker(plusOne, h, []) == 0 && forall t :: t in targets ==> RunWorker(plusOne, h, [t]) != 0
  {
    StatusIff(plusOne, h, targets);
    hide RunWorker, StatusOf;
    var control := RunWorker(plusOne, h, []);
    if control != 0 {
      return ERROR;
    }
    for i := 0 to |targets|
      invariant forall j :: 0 <= j < i ==> RunWorker(plusOne, h, [targets[j]]) != 0
    {
      if RunWorker(plusOne, h, [targets[i]]) == 0 {
        return VACUOUS;
      }
    }
    s := TEETH;
  }

  predicate Mapped(h: Harness) {
    h.targets.Some? && h.targets.value != []
  }

  function Named(plusOne: PlusOne, hs: seq<Harness>, s: Status): seq<string> {
    if hs == [] then []
    else (if Mapped(hs[0]) && StatusOf(plusOne, hs[0], hs[0].targets.value) == s then [hs[0].name] else [])
         + Named(plusOne, hs[1..], s)
  }

  function Unmapped(hs: seq<Harness>): seq<string> {
    if hs == [] then [] else (if Mapped(hs[0]) then [] else [hs[0].name]) + Unmapped(hs[1..])
  }

  /** Where targets are listed, the self-test is green and each of them alone turns it red. */
  ghost predicate HasTeeth(plusOne: PlusOne, h: Harness) {
    h.targets.Some? ==>
      forall t :: t in h.targets.value ==> RunWorker(plusOne, h, []) == 0 && RunWorker(plusOne, h, [t]) != 0
  }

  /** `run_gate`, given the discovered harnesses. */
  method RunGate(plusOne: PlusOne, hs: seq<Harness>)
    returns (code: int, vacuous: seq<string>, errors: seq<string>, unmapped: seq<string>, teeth: seq<string>)
    ensures vacuous == Named(plusOne, hs, VACUOUS) && errors == Named(plusOne, hs, ERROR)
    ensures unmapped == Unmapped(hs) && teeth == Named(plusOne, hs, TEETH)
    ensures |vacuous| + |errors| + |unmapped| + |teeth| == |hs|
    ensures code == if vacuous == [] && errors == [] then 0 else 1
    ensures code == 0 <==> forall h :: h in hs ==> HasTeeth(plusOne, h)
  {
    hide StatusOf, Mapped, HasTeeth;
    vacuous, errors, unmapped, teeth := [], [], [], [];
    for i := 0 to |hs|
      invariant vacuous == Named(plusOne, hs[..i], VACUOUS) && errors == Named(plusOne, hs[..i], ERROR)
      invariant unmapped == Unmapped(hs[..i]) && teeth == Named(plusOne, hs[..i], TEETH)
    {
      var h := hs[i];
      OneMoreHarness(plusOne, hs, i);
      MappedIs(h);
      if h.targets.None? || h.targets.value == [] {
        unmapped := unmapped + [h.name];
      } else {
        var status := Classify(plusOne, h, h.targets.value);
        if status == TEETH {
          teeth := teeth + [h.name];
        } else if status == VACUOUS {
          vacuous := vacuous + [h.name];
        } else {
          errors := errors + [h.name];
        }
      }
    }
    assert hs[..|hs|] == hs;
    NamedPartition(plusOne, hs);
    PassesIff(plusOne, hs);
    code := if vacuous != [] || errors != [] then 1 else 0;
  }

  lemma HasTeethIff(plusOne: PlusOne, h: Harness)
    ensures HasTeeth(plusOne, h) <==> (Mapped(h) ==> StatusOf(plusOne, h, h.targets.value) == TEETH)
  {
    if Mapped(h) {
      StatusIff(plusOne, h, h.targets.value);
      assert h.targets.value[0] in h.targets.value;
    }
    hide RunWorker, StatusOf;
  }

  lemma PassesIff(plusOne: PlusOne, hs: seq<Harness>)
    ensures Named(plusOne, hs, VACUOUS) == [] && Named(plusOne, hs, ERROR) == [] <==>
            forall h :: h in hs ==> HasTeeth(plusOne, h)
  {
    NamedPartition(plusOne, hs);
    hide Named, StatusOf, HasTeeth;
    forall h
      ensures HasTeeth(plusOne, h) <==> (Mapped(h) ==> StatusOf(plusOne, h, h.targets.value) == TEETH)
    {
      HasTeethIff(plusOne, h);
    }
    assert forall h :: h in hs ==> exists i :: 0 <= i < |hs| && hs[i] == h;
  }

  lemma MappedIs(h: Harness)
    ensures Mapped(h) <==> h.targets.Some? && h.targets.value != []
  {
  }

  lemma OneMoreHarness(plusOne: PlusOne, hs: seq<Harness>, i: nat)
    requires i < |hs|
    ensures forall s :: Named(plusOne, hs[..i + 1], s) ==
              Named(plusOne, hs[..i], s)
              + if Mapped(hs[i]) && StatusOf(plusOne, hs[i], hs[i].targets.value) == s then [hs[i].name] else []
    ensures Unmapped(hs[..i + 1]) == Unmapped(hs[..i]) + if Mapped(hs[i]) then [] else [hs[i].name]
  {
    hide StatusOf;
    forall s
      ensures Named(plusOne, hs[..i + 1], s) ==
                Named(plusOne, hs[..i], s)
                + if Mapped(hs[i]) && StatusOf(plusOne, hs[i], hs[i].targets.value) == s then [hs[i].name] else []
    {
      NamedSnoc(plusOne, hs[..i], hs[i], s);
      assert hs[..i + 1] == hs[..i] + [hs[i]];
    }
    UnmappedSnoc(hs[..i], hs[i]);
    assert hs[..i + 1] == hs[..i] + [hs[i]];
  }

  lemma {:induction false} NamedSnoc(plusOne: PlusOne, hs: seq<Harness>, h: Harness, s: Status)
    ensures Named(plusOne, hs + [h], s) == Named(plusOne, hs, s)
            + if Mapped(h) && StatusOf(plusOne, h, h.targets.value) == s then [h.name] else []
  {
    if hs == [] {
      NamedCons(plusOne, h, [], s);
      NamedNone(plusOne, s);
      hide StatusOf, Mapped, Named;
      assert hs + [h] == [h] + [];
    } else {
      NamedCons(plusOne, hs[0], hs[1..], s);
      NamedCons(plusOne, hs[0], hs[1..] + [h], s);
      NamedSnoc(plusOne, hs[1..], h, s);
      hide StatusOf, Named, Mapped;
      assert hs == [hs[0]] + hs[1..];
      assert hs + [h] == [hs[0]] + (hs[1..] + [h]);
    }
  }

  lemma NamedNone(plusOne: PlusOne, s: Status)
    ensures Named(plusOne, [], s) == []
  {
  }

  lemma NamedCons(plusOne: PlusOne, h: Harness, hs: seq<Harness>, s: Status)
    ensures Named(plusOne, [h] + hs, s) ==
            (if Mapped(h) && StatusOf(plusOne, h, h.targets.value) == s then [h.name] else []) + Named(plusOne, hs, s)
  {
    hide StatusOf;
    assert ([h] + hs)[1..] == hs;
  }

  lemma {:induction false} UnmappedSnoc(hs: seq<Harness>, h: Harness)
    ensures Unmapped(hs + [h]) == Unmapped(hs) + if Mapped(h) then [] else [h.name]
  {
    if hs == [] {
      assert [h][1..] == [];
    } else {
      assert (hs + [h])[1..] == hs[1..] + [h];
      UnmappedSnoc(hs[1..], h);
    }
  }

  /** Every harness lands in exactly one list, and the blocking lists are empty exactly when every
      mapped harness has teeth. */
  lemma {:induction false} NamedPartition(plusOne: PlusOne, hs: seq<Harness>)
    ensures |Named(plusOne, hs, VACUOUS)| + |Named(plusOne, hs, ERROR)| + |Unmapped(hs)|
            + |Named(plusOne, hs, TEETH)| == |hs|
    ensures Named(plusOne, hs, VACUOUS) == [] && Named(plusOne, hs, ERROR) == [] <==>
            forall i :: 0 <= i < |hs| && Mapped(hs[i]) ==> StatusOf(plusOne, hs[i], hs[i].targets.value) == TEETH
  {
    hide StatusOf;
    if hs != [] {
      NamedPartition(plusOne, hs[1..]);
      assert forall i :: 0 < i < |hs| ==> hs[i] == hs[1..][i - 1];
      if forall i :: 0 <= i < |hs| && Mapped(hs[i]) ==> StatusOf(plusOne, hs[i], hs[i].targets.value) == TEETH {
        assert forall i :: 0 <= i < |hs[1..]| && Mapped(hs[1..][i]) ==>
                 StatusOf(plusOne, hs[i + 1], hs[i + 1].targets.value) == TEETH;
      }
    }
  }

  lemma {:induction false} NamedIff(plusOne: PlusOne, hs: seq<Harness>, s: Status, name: string)
    ensures name in Named(plusOne, hs, s) <==>
            exists h :: h in hs && h.name == name && h.targets.Some? && h.targets.value != []
                        && StatusOf(plusOne, h, h.targets.value) == s
    ensures name in Unmapped(hs) <==>
            exists h :: h in hs && h.name == name && (h.targets.None? || h.targets.value == [])
  {
    hide StatusOf;
    if hs != [] {
      NamedIff(plusOne, hs[1..], s, name);
      assert forall h :: h in hs <==> h == hs[0] || h in hs[1..];
    }
  }

  // ---------------------------------------------------------------- what the verdicts mean

  /** One at a time: a strong target never masks a vacuous one, in whatever order they are listed. */
  lemma NoMasking(plusOne: PlusOne, h: Harness, a: seq<string>, b: seq<string>)
    ensures StatusOf(plusOne, h, a + b) == VACUOUS <==>
            StatusOf(plusOne, h, a) == VACUOUS || StatusOf(plusOne, h, b) == VACUOUS
    ensures StatusOf(plusOne, h, a + b) == StatusOf(plusOne, h, b + a)
  {
    hide StaysGreen, Green;
    assert forall t :: t in a + b <==> t in a || t in b;
    assert forall t :: t in b + a <==> t in a || t in b;
  }

  /** A target that reaches the worker as it is: not empty, no comma. */
  predicate PlainTarget(t: string) {
    t != "" && ',' !in t
  }

  lemma {:induction false} NonEmptyKeeps(parts: seq<string>)
    requires forall t :: t in parts ==> t != ""
    ensures NonEmpty(parts) == parts
  {
    if parts != [] {
      assert parts[0] in parts;
      assert forall t :: t in parts[1..] ==> t in parts;
      NonEmptyKeeps(parts[1..]);
      assert parts == [parts[0]] + parts[1..];
    }
  }

  /** Plain targets reach the worker as listed; written as one, with commas, they reach it as several,
      and are neutered in the same run. */
  lemma PlainReceived(ts: seq<string>)
    requires forall t :: t in ts ==> PlainTarget(t)
    ensures Received(ts) == ts
    ensures ts != [] ==> Received([Join(ts, ',')]) == ts
  {
    if ts != [] {
      SplitJoin(ts, ',');
      NonEmptyKeeps(ts);
      hide NonEmpty, Split;
      assert Join([Join(ts, ',')], ',') == Join(ts, ',');
    }
  }

  /** What the worker does with plain targets: red where one does not resolve, and otherwise the self-test
      on an environment that mutates exactly their results. */
  lemma WorkerRun(plusOne: PlusOne, h: Harness, ts: seq<string>)
    requires (forall t :: t in ts ==> PlainTarget(t)) && NoRepeats(ts)
    ensures ts != [] ==> RunWorker(plusOne, h, [Join(ts, ',')]) == RunWorker(plusOne, h, ts)
    ensures if forall t :: t in ts ==> Resolves(h.env, t)
            then exists env ::
                   Neutered(plusOne, h.env, ts, env) && RunWorker(plusOne, h, ts) == ExitCode(h.selfTest(env))
            else RunWorker(plusOne, h, ts) == 1
  {
    PlainReceived(ts);
    NeuterAllIs(plusOne, h.env, ts);
    hide Received, NeuterAll, Resolves, Neutered, ExitCode, Join;
  }

  /** What neutering one plain target does: an unresolvable one is always red, a resolvable one runs the
      self-test on that single mutated oracle. */
  lemma NeuteredRun(plusOne: PlusOne, h: Harness, t: string)
    requires PlainTarget(t)
    ensures !Resolves(h.env, t) ==> !StaysGreen(plusOne, h, t)
    ensures Resolves(h.env, t) ==>
              var env := Neuter(plusOne, h.env, t).value;
              && (StaysGreen(plusOne, h, t) <==> ExitCode(h.selfTest(env)) == 0)
              && Neutered(plusOne, h.env, [t], env)
  {
    PlainReceived([t]);
    NeuterOne(plusOne, h.env, t);
    NeuterIs(plusOne, h.env, t);
    hide Received, NeuterAll, Neutered, Neuter;
  }

  lemma NeuterOne(plusOne: PlusOne, env: Env, t: string)
    ensures NeuterAll(plusOne, env, [t]) == Neuter(plusOne, env, t)
  {
    hide Neuter;
    assert [t][1..] == [];
  }

  /** A target name that resolves to nothing, or has more than two parts, reads TEETH on any green harness: the worker's
      exception is taken for a red self-test. */
  lemma UnresolvableReadsTeeth(plusOne: PlusOne, h: Harness, t: string)
    requires Green(h) && PlainTarget(t) && !Resolves(h.env, t)
    ensures StatusOf(plusOne, h, [t]) == TEETH
  {
    NeuteredRun(plusOne, h, t);
    hide StaysGreen;
  }

  /** An empty target name neuters nothing, so it reads VACUOUS on any green harness. */
  lemma EmptyTargetReadsVacuous(plusOne: PlusOne, h: Harness)
    requires Green(h)
    ensures StatusOf(plusOne, h, [""]) == VACUOUS
  {
    SplitParts("", ',');
    assert Split("", ',') == [""];
    assert [""][1..] == [];
    assert Received([""]) == [];
    assert StaysGreen(plusOne, h, "");
  }

  predicate SameVerdict(h: Harness, t: string, f: Oracle) {
    ExitCode(h.selfTest(h.env[t := f])) == ExitCode(h.selfTest(h.env))
  }

  /** A self-test whose verdict ignores a target reads VACUOUS. */
  lemma IgnoredTargetReadsVacuous(plusOne: PlusOne, h: Harness, targets: seq<string>, t: string)
    requires Green(h) && t in targets && PlainTarget(t) && Resolves(h.env, t)
    requires forall f :: SameVerdict(h, t, f)
    ensures StatusOf(plusOne, h, targets) == VACUOUS
  {
    NeuteredRun(plusOne, h, t);
    hide StaysGreen;
    var f := h.env[t];
    var g: Oracle := (x: nat) => Mutate(plusOne, f(x));
    assert Neuter(plusOne, h.env, t).value == h.env[t := g];
    assert SameVerdict(h, t, g);
  }

  // ---------------------------------------------------------------- equality self-tests

  /** The self-test calls an oracle and compares its result with an expected value. */
  datatype Check = Check(target: string, input: nat, expected: Value)

  predicate Holds(env: Env, c: Check) {
    c.target in env && env[c.target](c.input) == c.expected
  }

  function EqualitySelfTest(checks: seq<Check>): Env -> Result {
    (env: Env) => if forall i :: 0 <= i < |checks| ==> Holds(env, checks[i]) then Returned(0) else Returned(1)
  }

  /** Some check looks at the target on an input whose result the mutation changes. */
  predicate Exercised(plusOne: PlusOne, checks: seq<Check>, t: string) {
    exists i :: 0 <= i < |checks| && checks[i].target == t && Mutate(plusOne, checks[i].expected) != checks[i].expected
  }

  lemma EqualityStaysGreenIff(plusOne: PlusOne, h: Harness, checks: seq<Check>, t: string)
    requires h.selfTest == EqualitySelfTest(checks) && Green(h) && PlainTarget(t) && Resolves(h.env, t)
    ensures StaysGreen(plusOne, h, t) <==> !Exercised(plusOne, checks, t)
  {
    NeuteredRun(plusOne, h, t);
    hide StaysGreen, Mutate;
    var env := Neuter(plusOne, h.env, t).value;
    assert forall i :: 0 <= i < |checks| ==> Holds(h.env, checks[i]);
    forall i | 0 <= i < |checks|
      ensures Holds(env, checks[i]) <==>
              (checks[i].target != t || Mutate(plusOne, checks[i].expected) == checks[i].expected)
    {
      assert Holds(h.env, checks[i]);
    }
  }

  /** For a green self-test made of equality checks the verdict is TEETH exactly when every target is
      checked on a result that mutation changes, and VACUOUS otherwise. */
  lemma EqualityTeethIff(plusOne: PlusOne, h: Harness, checks: seq<Check>, targets: seq<string>)
    requires h.selfTest == EqualitySelfTest(checks) && Green(h)
    requires forall t :: t in targets ==> PlainTarget(t) && Resolves(h.env, t)
    ensures StatusOf(plusOne, h, targets) ==
            if forall t :: t in targets ==> Exercised(plusOne, checks, t) then TEETH else VACUOUS
  {
    forall t | t in targets
      ensures StaysGreen(plusOne, h, t) <==> !Exercised(plusOne, checks, t)
    {
      EqualityStaysGreenIff(plusOne, h, checks, t);
    }
    hide StaysGreen, Exercised, Green, PlainTarget;
  }
}

/**
 * Key injection (src/node_utils.rs): three `key insert` runs of the node
 * binary, one per session key, each started only after the previous one has
 * exited, the first spawn failure ending the sequence.
 *
 * A process launch is modelled by `Launcher.Status`, which appends the program
 * and its argument list to an invocation log and reports the outcome that the
 * environment (`outcomeOf`, indexed by launch number) has in store for it.
 */
module NodeUtils {
  import opened Wrappers
  import opened Errors
  import opened Text
  import opened Ovh

  /** A filesystem path: raw bytes, as on Unix. */
  datatype OsPath = OsPath(bytes: seq<byte>) {
    /** `Path::to_str`: the path as text, when its bytes are valid UTF-8. */
    function ToStr(): Option<string> {
      Utf8Decode(bytes)
    }
  }

  /** What `ExitStatus::code` reports: `None` when a signal ended the process. */
  datatype ExitStatus = ExitStatus(code: Option<int>)

  /** What the environment does with one launch. */
  datatype LaunchOutcome = Exited(status: ExitStatus) | SpawnFailed

  /** One launch: the program and its argument list. */
  datatype Invocation = Invocation(program: OsPath, args: seq<string>)

  /** The result `Command::status` gives for an outcome. */
  function StatusResult(o: LaunchOutcome): (r: Result<ExitStatus, Error>)
    ensures r.Ok? <==> o.Exited?
    ensures o.SpawnFailed? ==> r == Err(SpawnError)
  {
    match o
    case Exited(s) => Ok(s)
    case SpawnFailed => Err(SpawnError)
  }

  /** The process launcher, with the log of every launch attempted so far. */
  class Launcher {
    var log: seq<Invocation>
    const outcomeOf: nat -> LaunchOutcome

    constructor (outcomeOf: nat -> LaunchOutcome)
      ensures log == [] && this.outcomeOf == outcomeOf
    {
      log := [];
      this.outcomeOf := outcomeOf;
    }

    /** `Command::new(program).args(args).status()`: launch and wait for exit. */
    method Status(program: OsPath, args: seq<string>) returns (r: Result<ExitStatus, Error>)
      modifies this
      ensures log == old(log) + [Invocation(program, args)]
      ensures r == StatusResult(outcomeOf(|old(log)|))
    {
      r := StatusResult(outcomeOf(|log|));
      log := log + [Invocation(program, args)];
    }
  }

  // ---------------------------------------------------------------------------
  // The three session keys
  // ---------------------------------------------------------------------------

  datatype Scheme = Ed25519 | Sr25519 {
    function Name(): string {
      match this
      case Ed25519 => "Ed25519"
      case Sr25519 => "Sr25519"
    }
  }

  /** One key to insert: its signature scheme, key-type tag and secret URI. */
  datatype KeyRole = KeyRole(scheme: Scheme, tag: string, suri: string)

  /** The keys `inject_session_keys` inserts, in the order it inserts them. */
  function InjectionPlan(secrets: SecretData): (p: seq<KeyRole>)
    ensures |p| == 3
    ensures [p[0].suri, p[1].suri, p[2].suri] == [secrets.grandpa, secrets.aura, secrets.imOnline]
    ensures forall i, j :: 0 <= i < j < |p| ==> p[i].tag != p[j].tag
    ensures forall i :: 0 <= i < |p| ==> (p[i].scheme == Ed25519 <==> p[i].tag == "gran")
  {
    [ KeyRole(Ed25519, "gran", secrets.grandpa),
      KeyRole(Sr25519, "aura", secrets.aura),
      KeyRole(Sr25519, "imon", secrets.imOnline) ]
  }

  /** The argument list of one `key insert` run, followed by the caller's base-path arguments. */
  function KeyInsertArgs(chain: string, role: KeyRole, password: string, basePath: seq<string>): (args: seq<string>)
    ensures |args| == 12 + |basePath|
    ensures args[..4] == ["key", "insert", "--chain", chain]
    ensures args[4..10] == ["--scheme", role.scheme.Name(), "--suri", role.suri, "--key-type", role.tag]
    ensures args[10..12] == ["--password", password]
    ensures args[12..] == basePath
  {
    ["key", "insert", "--chain", chain, "--scheme", role.scheme.Name(), "--suri", role.suri,
     "--key-type", role.tag, "--password", password] + basePath
  }

  /** The launches made and the result returned. */
  datatype Run = Run(log: seq<Invocation>, result: Result<(), Error>)

  /**
   * The behaviour of inserting one key: the chain-spec path is turned into
   * text (a failure returns before launching), then `key insert` is launched;
   * a spawn failure is returned, an exit, whatever its code, is `Ok`.
   */
  function InsertRun(node: OsPath, chainSpec: OsPath, role: KeyRole, password: string,
                     basePath: seq<string>, outcome: LaunchOutcome): (r: Run)
    ensures |r.log| <= 1
    ensures r.result.Ok? <==> chainSpec.ToStr().Some? && outcome.Exited?
    ensures r.log != [] <==> chainSpec.ToStr().Some?
  {
    match chainSpec.ToStr()
    case None => Run([], Err(PathEncodingError))
    case Some(chain) =>
      var launch := Invocation(node, KeyInsertArgs(chain, role, password, basePath));
      match outcome
      case SpawnFailed => Run([launch], Err(SpawnError))
      case Exited(_) => Run([launch], Ok(()))
  }

  /**
   * The behaviour of inserting the keys of `plan` in order, launch numbers
   * counting from `next`: each insert as `InsertRun`, the first error ending
   * the sequence.
   */
  function InjectionRun(node: OsPath, chainSpec: OsPath, plan: seq<KeyRole>, password: string,
                        basePath: seq<string>, outcomeOf: nat -> LaunchOutcome, next: nat): (r: Run)
    ensures |r.log| <= |plan|
    ensures r.result.Ok? ==> |r.log| == |plan|
    ensures forall i :: 0 <= i < |r.log| ==> r.log[i].program == node
    ensures r.result.Err? ==> r.result.error == (if chainSpec.ToStr().None? then PathEncodingError else SpawnError)
    decreases |plan|
  {
    if plan == [] then Run([], Ok(()))
    else
      var step := InsertRun(node, chainSpec, plan[0], password, basePath, outcomeOf(next));
      if step.result.Err? then step
      else
        var rest := InjectionRun(node, chainSpec, plan[1..], password, basePath, outcomeOf, next + 1);
        Run(step.log + rest.log, rest.result)
  }

  /** The behaviour of `inject_session_keys` with these secrets. */
  function InjectSessionKeysRun(node: OsPath, chainSpec: OsPath, secrets: SecretData,
                                basePath: seq<string>, outcomeOf: nat -> LaunchOutcome, next: nat): Run
  {
    InjectionRun(node, chainSpec, InjectionPlan(secrets), secrets.keystoreSecret, basePath, outcomeOf, next)
  }

  /** One `Command::new(node_path).args([...]).args(base_path).status()?` step. */
  method InsertKey(launcher: Launcher, nodePath: OsPath, chainSpec: OsPath, role: KeyRole,
                   password: string, basePath: seq<string>)
    returns (r: Result<(), Error>)
    modifies launcher
    ensures var step := InsertRun(nodePath, chainSpec, role, password, basePath,
                                  launcher.outcomeOf(|old(launcher.log)|));
      launcher.log == old(launcher.log) + step.log && r == step.result
  {
    var chain := chainSpec.ToStr();
    if chain.None? {
      return Err(PathEncodingError);
    }
    var status := launcher.Status(nodePath, KeyInsertArgs(chain.value, role, password, basePath));
    if status.Err? {
      return Err(status.error);
    }
    r := Ok(());
  }

  /** A three-key run is the three inserts in turn, up to the first error. */
  lemma ThreeInserts(node: OsPath, chainSpec: OsPath, plan: seq<KeyRole>, password: string,
                     basePath: seq<string>, outcomeOf: nat -> LaunchOutcome, next: nat)
    requires |plan| == 3
    ensures var s0 := InsertRun(node, chainSpec, plan[0], password, basePath, outcomeOf(next));
      var s1 := InsertRun(node, chainSpec, plan[1], password, basePath, outcomeOf(next + 1));
      var s2 := InsertRun(node, chainSpec, plan[2], password, basePath, outcomeOf(next + 2));
      InjectionRun(node, chainSpec, plan, password, basePath, outcomeOf, next)
        == if s0.result.Err? then s0
           else if s1.result.Err? then Run(s0.log + s1.log, s1.result)
           else Run(s0.log + s1.log + s2.log, s2.result)
  {
    var rest := plan[1..];
    assert rest[0] == plan[1] && rest[1..][0] == plan[2] && rest[1..][1..] == [];
    var s2 := InsertRun(node, chainSpec, plan[2], password, basePath, outcomeOf(next + 2));
    assert InjectionRun(node, chainSpec, rest[1..], password, basePath, outcomeOf, next + 2)
        == if s2.result.Err? then s2 else Run(s2.log + [], s2.result);
    assert s2.log + [] == s2.log;
  }

  /** `inject_session_keys`: insert the grandpa, aura and im_online keys, in that order. */
  method InjectSessionKeys(launcher: Launcher, nodePath: OsPath, chainSpec: OsPath,
                           secrets: SecretData, basePath: seq<string>)
    returns (r: Result<(), Error>)
    modifies launcher
    ensures var run := InjectSessionKeysRun(nodePath, chainSpec, secrets, basePath,
                                            launcher.outcomeOf, |old(launcher.log)|);
      launcher.log == old(launcher.log) + run.log && r == run.result
  {
    ghost var pw, o, start := secrets.keystoreSecret, launcher.outcomeOf, |launcher.log|;
    ghost var s0 := InsertRun(nodePath, chainSpec, KeyRole(Ed25519, "gran", secrets.grandpa), pw, basePath, o(start));
    ghost var s1 := InsertRun(nodePath, chainSpec, KeyRole(Sr25519, "aura", secrets.aura), pw, basePath, o(start + 1));
    ghost var s2 := InsertRun(nodePath, chainSpec, KeyRole(Sr25519, "imon", secrets.imOnline), pw, basePath, o(start + 2));
    ghost var run := InjectSessionKeysRun(nodePath, chainSpec, secrets, basePath, o, start);
    ThreeInserts(nodePath, chainSpec, InjectionPlan(secrets), pw, basePath, o, start);
    assert run == if s0.result.Err? then s0
                  else if s1.result.Err? then Run(s0.log + s1.log, s1.result)
                  else Run(s0.log + s1.log + s2.log, s2.result);

    // Grandpa
    r := InsertKey(launcher, nodePath, chainSpec, KeyRole(Ed25519, "gran", secrets.grandpa),
                   secrets.keystoreSecret, basePath);
    if r.Err? {
      return;
    }
    assert |launcher.log| == start + 1;
    // Aura
    r := InsertKey(launcher, nodePath, chainSpec, KeyRole(Sr25519, "aura", secrets.aura),
                   secrets.keystoreSecret, basePath);
    assert launcher.log == old(launcher.log) + (s0.log + s1.log);
    if r.Err? {
      return;
    }
    assert |launcher.log| == start + 2;
    // ImOnline
    r := InsertKey(launcher, nodePath, chainSpec, KeyRole(Sr25519, "imon", secrets.imOnline),
                   secrets.keystoreSecret, basePath);
    assert launcher.log == old(launcher.log) + (s0.log + s1.log + s2.log);
    if r.Err? {
      return;
    }
    r := Ok(());
  }

  // ---------------------------------------------------------------------------
  // Properties of a run
  // ---------------------------------------------------------------------------

  /**
   * Launch `i` of a run is the `key insert` of plan entry `i`, with the chain-spec
   * path's text; a run never launches more than the plan holds, and launches
   * nothing when the path is not text.
   */
  lemma {:induction false} RunFollowsPlan(node: OsPath, chainSpec: OsPath, plan: seq<KeyRole>, password: string,
                                          basePath: seq<string>, outcomeOf: nat -> LaunchOutcome, next: nat)
    ensures var run := InjectionRun(node, chainSpec, plan, password, basePath, outcomeOf, next);
      && |run.log| <= |plan|
      && (chainSpec.ToStr().None? ==> run.log == [])
      && forall i :: 0 <= i < |run.log| ==>
           chainSpec.ToStr().Some?
           && run.log[i] == Invocation(node, KeyInsertArgs(chainSpec.ToStr().value, plan[i], password, basePath))
    decreases |plan|
  {
    if plan != [] && chainSpec.ToStr().Some? && outcomeOf(next).Exited? {
      var chain := chainSpec.ToStr().value;
      var rest := InjectionRun(node, chainSpec, plan[1..], password, basePath, outcomeOf, next + 1);
      RunFollowsPlan(node, chainSpec, plan[1..], password, basePath, outcomeOf, next + 1);
      FollowsAfterFirst(Invocation(node, KeyInsertArgs(chain, plan[0], password, basePath)), rest.log,
                        node, chain, plan, password, basePath);
    }
  }

  /** A first launch for plan entry 0 in front of launches following `plan[1..]` follows `plan`. */
  lemma FollowsAfterFirst(first: Invocation, rest: seq<Invocation>, node: OsPath, chain: string,
                          plan: seq<KeyRole>, password: string, basePath: seq<string>)
    requires plan != [] && first == Invocation(node, KeyInsertArgs(chain, plan[0], password, basePath))
    requires |rest| <= |plan[1..]|
    requires forall i :: 0 <= i < |rest| ==> rest[i] == Invocation(node, KeyInsertArgs(chain, plan[1..][i], password, basePath))
    ensures forall i :: 0 <= i < |[first] + rest| ==>
      ([first] + rest)[i] == Invocation(node, KeyInsertArgs(chain, plan[i], password, basePath))
  {
    forall i | 1 <= i < |[first] + rest|
      ensures ([first] + rest)[i] == Invocation(node, KeyInsertArgs(chain, plan[i], password, basePath))
    {
      assert ([first] + rest)[i] == rest[i - 1] && plan[1..][i - 1] == plan[i];
    }
  }

  /** Launches `from` to `from + count - 1` are all spawned (they exit, with any code). */
  ghost predicate AllSpawned(outcomeOf: nat -> LaunchOutcome, from: nat, count: nat) {
    forall m: nat :: from <= m < from + count ==> outcomeOf(m).Exited?
  }

  lemma AllSpawnedThree(outcomeOf: nat -> LaunchOutcome, next: nat)
    ensures AllSpawned(outcomeOf, next, 3)
        <==> outcomeOf(next).Exited? && outcomeOf(next + 1).Exited? && outcomeOf(next + 2).Exited?
  {
  }

  /** A run succeeds exactly when every launch of the plan was spawned, whatever the exit codes. */
  lemma {:induction false} RunOkIffAllSpawned(node: OsPath, chainSpec: OsPath, plan: seq<KeyRole>, password: string,
                                              basePath: seq<string>, outcomeOf: nat -> LaunchOutcome, next: nat)
    requires plan != []
    ensures var run := InjectionRun(node, chainSpec, plan, password, basePath, outcomeOf, next);
      run.result.Ok? <==> chainSpec.ToStr().Some? && AllSpawned(outcomeOf, next, |plan|)
    ensures var run := InjectionRun(node, chainSpec, plan, password, basePath, outcomeOf, next);
      run.result.Ok? ==> |run.log| == |plan|
    decreases |plan|
  {
    if chainSpec.ToStr().Some? && outcomeOf(next).Exited? && |plan| > 1 {
      RunOkIffAllSpawned(node, chainSpec, plan[1..], password, basePath, outcomeOf, next + 1);
    }
  }

  /**
   * When launch `k` of the run is the first that cannot be spawned, the run
   * stops there: `k + 1` launches, the spawn error, and nothing after.
   */
  lemma {:induction false} RunStopsAtSpawnFailure(node: OsPath, chainSpec: OsPath, plan: seq<KeyRole>, password: string,
                                                  basePath: seq<string>, outcomeOf: nat -> LaunchOutcome, next: nat, k: nat)
    requires chainSpec.ToStr().Some?
    requires k < |plan|
    requires AllSpawned(outcomeOf, next, k)
    requires outcomeOf(next + k).SpawnFailed?
    ensures var run := InjectionRun(node, chainSpec, plan, password, basePath, outcomeOf, next);
      |run.log| == k + 1 && run.result == Err(SpawnError)
    decreases k
  {
    if k > 0 {
      assert outcomeOf(next).Exited?;
      RunStopsAtSpawnFailure(node, chainSpec, plan[1..], password, basePath, outcomeOf, next + 1, k - 1);
    }
  }

  /** Exit codes never matter: two environments that spawn the same launches give the same run. */
  lemma {:induction false} ExitCodesIgnored(node: OsPath, chainSpec: OsPath, plan: seq<KeyRole>, password: string,
                                            basePath: seq<string>, o1: nat -> LaunchOutcome, o2: nat -> LaunchOutcome, next: nat)
    requires forall k: nat :: o1(k).Exited? == o2(k).Exited?
    ensures InjectionRun(node, chainSpec, plan, password, basePath, o1, next)
         == InjectionRun(node, chainSpec, plan, password, basePath, o2, next)
    decreases |plan|
  {
    if plan != [] && chainSpec.ToStr().Some? && o1(next).Exited? {
      ExitCodesIgnored(node, chainSpec, plan[1..], password, basePath, o1, o2, next + 1);
    }
  }

  // ---------------------------------------------------------------------------
  // Properties of inject_session_keys
  // ---------------------------------------------------------------------------

  /** A chain-spec path that is not valid UTF-8 fails before any launch. */
  lemma InvalidSpecPathLaunchesNothing(node: OsPath, chainSpec: OsPath, secrets: SecretData,
                                       basePath: seq<string>, outcomeOf: nat -> LaunchOutcome, next: nat)
    requires chainSpec.ToStr().None?
    ensures InjectSessionKeysRun(node, chainSpec, secrets, basePath, outcomeOf, next)
         == Run([], Err(PathEncodingError))
  {
  }

  /**
   * When all three launches are spawned, the run succeeds after exactly three
   * `key insert` launches: grandpa (Ed25519, gran), aura (Sr25519, aura) and
   * im_online (Sr25519, imon), in that order.
   */
  lemma ThreeKeysInOrder(node: OsPath, chainSpec: OsPath, secrets: SecretData,
                         basePath: seq<string>, outcomeOf: nat -> LaunchOutcome, next: nat)
    requires chainSpec.ToStr().Some?
    requires outcomeOf(next).Exited? && outcomeOf(next + 1).Exited? && outcomeOf(next + 2).Exited?
    ensures var run := InjectSessionKeysRun(node, chainSpec, secrets, basePath, outcomeOf, next);
      var chain, pw := chainSpec.ToStr().value, secrets.keystoreSecret;
      && run.result.Ok?
      && run.log == [
           Invocation(node, KeyInsertArgs(chain, KeyRole(Ed25519, "gran", secrets.grandpa), pw, basePath)),
           Invocation(node, KeyInsertArgs(chain, KeyRole(Sr25519, "aura", secrets.aura), pw, basePath)),
           Invocation(node, KeyInsertArgs(chain, KeyRole(Sr25519, "imon", secrets.imOnline), pw, basePath))]
  {
    var plan := InjectionPlan(secrets);
    assert AllSpawned(outcomeOf, next, 3);
    RunOkIffAllSpawned(node, chainSpec, plan, secrets.keystoreSecret, basePath, outcomeOf, next);
    RunFollowsPlan(node, chainSpec, plan, secrets.keystoreSecret, basePath, outcomeOf, next);
    var run := InjectSessionKeysRun(node, chainSpec, secrets, basePath, outcomeOf, next);
    assert |run.log| == 3;
    assert run.log == [run.log[0], run.log[1], run.log[2]];
  }

  /** `inject_session_keys` returns `Ok` exactly when the path is text and all three launches were spawned. */
  lemma OkIffThreeSpawned(node: OsPath, chainSpec: OsPath, secrets: SecretData,
                          basePath: seq<string>, outcomeOf: nat -> LaunchOutcome, next: nat)
    ensures InjectSessionKeysRun(node, chainSpec, secrets, basePath, outcomeOf, next).result.Ok?
        <==> && chainSpec.ToStr().Some?
             && outcomeOf(next).Exited? && outcomeOf(next + 1).Exited? && outcomeOf(next + 2).Exited?
  {
    var plan := InjectionPlan(secrets);
    RunOkIffAllSpawned(node, chainSpec, plan, secrets.keystoreSecret, basePath, outcomeOf, next);
  }

  /** A spawn failure at launch `k` is returned and no later key is inserted. */
  lemma SpawnFailureAbortsRest(node: OsPath, chainSpec: OsPath, secrets: SecretData,
                               basePath: seq<string>, outcomeOf: nat -> LaunchOutcome, next: nat, k: nat)
    requires chainSpec.ToStr().Some? && k < 3
    requires AllSpawned(outcomeOf, next, k)
    requires outcomeOf(next + k).SpawnFailed?
    ensures var run := InjectSessionKeysRun(node, chainSpec, secrets, basePath, outcomeOf, next);
      |run.log| == k + 1 && run.result == Err(SpawnError)
  {
    RunStopsAtSpawnFailure(node, chainSpec, InjectionPlan(secrets), secrets.keystoreSecret, basePath, outcomeOf, next, k);
  }

  /**
   * Every launch is `key insert` with the same chain, the keystore password
   * after `--password`, and the caller's base-path arguments last.
   */
  lemma EveryLaunchShape(node: OsPath, chainSpec: OsPath, secrets: SecretData,
                         basePath: seq<string>, outcomeOf: nat -> LaunchOutcome, next: nat)
    ensures var run := InjectSessionKeysRun(node, chainSpec, secrets, basePath, outcomeOf, next);
      forall i :: 0 <= i < |run.log| ==>
        var args := run.log[i].args;
        && run.log[i].program == node
        && |args| == 12 + |basePath|
        && args[..4] == ["key", "insert", "--chain", chainSpec.ToStr().value]
        && args[10..12] == ["--password", secrets.keystoreSecret]
        && args[12..] == basePath
  {
    var plan := InjectionPlan(secrets);
    RunFollowsPlan(node, chainSpec, plan, secrets.keystoreSecret, basePath, outcomeOf, next);
  }

  /** The node key plays no part in key injection. */
  lemma NodeKeyNotUsed(node: OsPath, chainSpec: OsPath, s1: SecretData, s2: SecretData,
                       basePath: seq<string>, outcomeOf: nat -> LaunchOutcome, next: nat)
    requires s1.(nodeKey := "") == s2.(nodeKey := "")
    ensures InjectSessionKeysRun(node, chainSpec, s1, basePath, outcomeOf, next)
         == InjectSessionKeysRun(node, chainSpec, s2, basePath, outcomeOf, next)
  {
    assert InjectionPlan(s1) == InjectionPlan(s2);
  }
}

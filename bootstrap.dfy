/**
 * The tail of `main` (src/main.rs): with the secret decoded, inject the session
 * keys, then launch the node as a validator with the same base-path arguments
 * and the caller's extra arguments.
 */
module Bootstrap {
  import opened Wrappers
  import opened Errors
  import opened Ovh
  import opened NodeUtils

  /** `base_path_arg`: `--base-path <p>` when a base path is given, nothing otherwise. */
  function BasePathArgs(basePath: Option<string>): (r: seq<string>)
    ensures r == [] <==> basePath.None?
    ensures basePath.Some? ==> r == ["--base-path", basePath.value]
  {
    match basePath
    case Some(p) => ["--base-path", p]
    case None => []
  }

  /**
   * The validator's argument list. A chain-spec path that is not text becomes
   * the empty string (`to_str().unwrap_or_default()`).
   */
  function ValidatorArgs(basePath: Option<string>, data: SecretData, specPath: OsPath,
                         extraArgs: seq<string>): (r: seq<string>)
    ensures var b := |BasePathArgs(basePath)|;
      && |r| == b + 7 + |extraArgs|
      && r[..b] == BasePathArgs(basePath)
      && r[b..b + 7] == ["--validator", "--node-key", data.nodeKey, "--chain", specPath.ToStr().GetOr(""),
                         "--password", data.keystoreSecret]
      && r[b + 7..] == extraArgs
  {
    BasePathArgs(basePath)
    + ["--validator", "--node-key", data.nodeKey,
       "--chain", specPath.ToStr().GetOr(""),
       "--password", data.keystoreSecret]
    + extraArgs
  }

  /** The launches made and the validator's exit status (or the error that stopped the run). */
  datatype BootRun = BootRun(log: seq<Invocation>, result: Result<ExitStatus, Error>)

  /** Key injection, then, only if it returned `Ok`, the validator launch. */
  function BootstrapRun(nodeBin: OsPath, specPath: OsPath, data: SecretData, basePath: Option<string>,
                        extraArgs: seq<string>, outcomeOf: nat -> LaunchOutcome, next: nat): (r: BootRun)
    ensures |r.log| <= 4
    ensures forall i :: 0 <= i < |r.log| ==> r.log[i].program == nodeBin
    ensures |r.log| == 4 ==> r.log[3] == Invocation(nodeBin, ValidatorArgs(basePath, data, specPath, extraArgs))
    ensures r.result.Ok? ==> |r.log| == 4 && specPath.ToStr().Some?
  {
    var inject := InjectSessionKeysRun(nodeBin, specPath, data, BasePathArgs(basePath), outcomeOf, next);
    if inject.result.Err? then
      BootRun(inject.log, Err(inject.result.error))
    else
      BootRun(inject.log + [Invocation(nodeBin, ValidatorArgs(basePath, data, specPath, extraArgs))],
              StatusResult(outcomeOf(next + |inject.log|)))
  }

  /** `main` from the base-path argument to the validator's exit status. */
  method StartValidator(launcher: Launcher, nodeBin: OsPath, specPath: OsPath, secrets: SecretResponse,
                        basePath: Option<string>, extraArgs: seq<string>)
    returns (r: Result<ExitStatus, Error>)
    modifies launcher
    ensures var run := BootstrapRun(nodeBin, specPath, secrets.version.data, basePath, extraArgs,
                                    launcher.outcomeOf, |old(launcher.log)|);
      launcher.log == old(launcher.log) + run.log && r == run.result
  {
    var baseArgs := BasePathArgs(basePath);
    var injected := InjectSessionKeys(launcher, nodeBin, specPath, secrets.version.data, baseArgs);
    if injected.Err? {
      return Err(injected.error);
    }
    ghost var before := |old(launcher.log)|;
    ghost var inject := InjectSessionKeysRun(nodeBin, specPath, secrets.version.data, baseArgs,
                                             launcher.outcomeOf, before);
    OkIffThreeSpawned(nodeBin, specPath, secrets.version.data, baseArgs, launcher.outcomeOf, before);
    ThreeKeysInOrder(nodeBin, specPath, secrets.version.data, baseArgs, launcher.outcomeOf, before);
    assert |launcher.log| == before + |inject.log|;
    r := launcher.Status(nodeBin, ValidatorArgs(basePath, secrets.version.data, specPath, extraArgs));
  }

  // ---------------------------------------------------------------------------
  // Properties
  // ---------------------------------------------------------------------------

  /**
   * The whole run when every launch is spawned: the grandpa, aura and
   * im_online inserts in that order, then the validator with `--node-key`,
   * `--chain` and `--password`, whose exit status is the result.
   */
  lemma EndToEnd(nodeBin: OsPath, specPath: OsPath, data: SecretData, basePath: Option<string>,
                 extraArgs: seq<string>, outcomeOf: nat -> LaunchOutcome, next: nat)
    requires specPath.ToStr().Some?
    requires AllSpawned(outcomeOf, next, 4)
    ensures var run := BootstrapRun(nodeBin, specPath, data, basePath, extraArgs, outcomeOf, next);
      var b := |BasePathArgs(basePath)|;
      && |run.log| == 4
      && (forall i :: 0 <= i < 3 ==> |run.log[i].args| == 12 + b)
      && |run.log[3].args| == b + 7 + |extraArgs|
      && run.log[0].args[4..10] == ["--scheme", "Ed25519", "--suri", data.grandpa, "--key-type", "gran"]
      && run.log[1].args[4..10] == ["--scheme", "Sr25519", "--suri", data.aura, "--key-type", "aura"]
      && run.log[2].args[4..10] == ["--scheme", "Sr25519", "--suri", data.imOnline, "--key-type", "imon"]
      && run.log[3].program == nodeBin
      && run.log[3].args[b..b + 7]
         == ["--validator", "--node-key", data.nodeKey, "--chain", specPath.ToStr().value,
             "--password", data.keystoreSecret]
      && run.log[3].args[b + 7..] == extraArgs
      && run.result == Ok(outcomeOf(next + 3).status)
  {
    var baseArgs := BasePathArgs(basePath);
    var chain, pw := specPath.ToStr().value, data.keystoreSecret;
    assert outcomeOf(next).Exited? && outcomeOf(next + 1).Exited? && outcomeOf(next + 2).Exited?;
    ThreeKeysInOrder(nodeBin, specPath, data, baseArgs, outcomeOf, next);
    assert outcomeOf(next + 3).Exited?;
    var inject := InjectSessionKeysRun(nodeBin, specPath, data, baseArgs, outcomeOf, next);
    var a0 := KeyInsertArgs(chain, KeyRole(Ed25519, "gran", data.grandpa), pw, baseArgs);
    var a1 := KeyInsertArgs(chain, KeyRole(Sr25519, "aura", data.aura), pw, baseArgs);
    var a2 := KeyInsertArgs(chain, KeyRole(Sr25519, "imon", data.imOnline), pw, baseArgs);
    assert inject.log == [Invocation(nodeBin, a0), Invocation(nodeBin, a1), Invocation(nodeBin, a2)];
    var v := ValidatorArgs(basePath, data, specPath, extraArgs);
    var run := BootstrapRun(nodeBin, specPath, data, basePath, extraArgs, outcomeOf, next);
    assert run.log == inject.log + [Invocation(nodeBin, v)];
    assert run.log[0].args == a0 && run.log[1].args == a1 && run.log[2].args == a2 && run.log[3].args == v;
    assert run.result == StatusResult(outcomeOf(next + 3));
  }

  /**
   * The validator is launched exactly when key injection returned `Ok`, and
   * then as the launch right after the three inserts; every other launch is a
   * `key insert`.
   */
  lemma ValidatorOnlyAfterKeys(nodeBin: OsPath, specPath: OsPath, data: SecretData, basePath: Option<string>,
                               extraArgs: seq<string>, outcomeOf: nat -> LaunchOutcome, next: nat)
    ensures var run := BootstrapRun(nodeBin, specPath, data, basePath, extraArgs, outcomeOf, next);
      var injected := specPath.ToStr().Some? && AllSpawned(outcomeOf, next, 3);
      && (injected ==> |run.log| == 4 && run.log[3] == Invocation(nodeBin, ValidatorArgs(basePath, data, specPath, extraArgs)))
      && (!injected ==> |run.log| <= 3 && run.result.Err?)
      && forall i :: 0 <= i < |run.log| && (i < 3 || !injected) ==>
           |run.log[i].args| >= 12 && run.log[i].args[..2] == ["key", "insert"]
  {
    var baseArgs := BasePathArgs(basePath);
    AllSpawnedThree(outcomeOf, next);
    OkIffThreeSpawned(nodeBin, specPath, data, baseArgs, outcomeOf, next);
    EveryLaunchShape(nodeBin, specPath, data, baseArgs, outcomeOf, next);
    RunFollowsPlan(nodeBin, specPath, InjectionPlan(data), data.keystoreSecret, baseArgs, outcomeOf, next);
    if specPath.ToStr().Some? && AllSpawned(outcomeOf, next, 3) {
      ThreeKeysInOrder(nodeBin, specPath, data, baseArgs, outcomeOf, next);
    }
  }

  /**
   * Whenever the validator is launched its `--chain` value is the chain-spec
   * path's text: the empty-string fallback is never used, because a path that
   * is not text already stopped key injection.
   */
  lemma ValidatorChainIsSpecPath(nodeBin: OsPath, specPath: OsPath, data: SecretData, basePath: Option<string>,
                                 extraArgs: seq<string>, outcomeOf: nat -> LaunchOutcome, next: nat)
    ensures var run := BootstrapRun(nodeBin, specPath, data, basePath, extraArgs, outcomeOf, next);
      var b := |BasePathArgs(basePath)|;
      |run.log| == 4 ==>
        specPath.ToStr().Some? && |run.log[3].args| >= b + 7 && run.log[3].args[b + 3..b + 5] == ["--chain", specPath.ToStr().value]
  {
    ValidatorOnlyAfterKeys(nodeBin, specPath, data, basePath, extraArgs, outcomeOf, next);
  }

  /**
   * The base-path arguments (`--base-path <p>`, or nothing when no base path is
   * given) reach every launch: last in each `key insert`, first for the validator.
   */
  lemma BasePathEverywhere(nodeBin: OsPath, specPath: OsPath, data: SecretData, basePath: Option<string>,
                           extraArgs: seq<string>, outcomeOf: nat -> LaunchOutcome, next: nat)
    ensures var run := BootstrapRun(nodeBin, specPath, data, basePath, extraArgs, outcomeOf, next);
      var b := BasePathArgs(basePath);
      && |b| == (if basePath.Some? then 2 else 0)
      && (basePath.Some? ==> b == ["--base-path", basePath.value])
      && forall i :: 0 <= i < |run.log| ==>
           if i < 3 then |run.log[i].args| == 12 + |b| && run.log[i].args[12..] == b
           else |run.log[i].args| >= |b| && run.log[i].args[..|b|] == b
  {
    var baseArgs := BasePathArgs(basePath);
    ValidatorOnlyAfterKeys(nodeBin, specPath, data, basePath, extraArgs, outcomeOf, next);
    EveryLaunchShape(nodeBin, specPath, data, baseArgs, outcomeOf, next);
    var run := BootstrapRun(nodeBin, specPath, data, basePath, extraArgs, outcomeOf, next);
    var inject := InjectSessionKeysRun(nodeBin, specPath, data, baseArgs, outcomeOf, next);
    assert forall i :: 0 <= i < |inject.log| ==> run.log[i] == inject.log[i];
    if specPath.ToStr().Some? && AllSpawned(outcomeOf, next, 3) {
      ThreeKeysInOrder(nodeBin, specPath, data, baseArgs, outcomeOf, next);
      var v := ValidatorArgs(basePath, data, specPath, extraArgs);
      assert run.log[3].args == v && v[..|baseArgs|] == baseArgs;
    } else {
      AllSpawnedThree(outcomeOf, next);
      OkIffThreeSpawned(nodeBin, specPath, data, baseArgs, outcomeOf, next);
      assert inject.result.Err?;
      assert run.log == inject.log;
      RunFollowsPlan(nodeBin, specPath, InjectionPlan(data), data.keystoreSecret, baseArgs, outcomeOf, next);
    }
  }
}

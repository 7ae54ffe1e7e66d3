# validator-bootstrap, modelled in Dafny

This project models the core of `validator-bootstrap`. The tool fetches a validator's session keys from the OVH KMS secret store, installs them in the node's keystore, and then starts the Allfeat node as a validator. The model covers the parts that produce exact strings and argument lists:

- **OVH request signing** (`Ovh.Sign`). The signature is `$1$` followed by the lowercase hex SHA-1 of `app_secret+consumer_key+METHOD+url+body+timestamp`.
- **The server-time step** (`Ovh.ParseServerTime`, `Ovh.OvhTime`). The time endpoint's body is trimmed and parsed as a decimal `u64`.
- **Request assembly** (`Ovh.Send`). The four `X-Ovh-*` headers are always set. The content type and the payload are set only when the body is non-empty.
- **The secret-read URL** (`Ovh.SecretUrl`, `Ovh.GetSecretFor`). The secret path is percent-encoded as one path segment.
- **The secret record** (`Ovh.SecretResponse` / `Version` / `SecretData`).
- **Key injection** (`NodeUtils.InjectSessionKeys`). Three `key insert` launches of the node binary, in the order grandpa, aura, im_online.
- **The validator launch** (`Bootstrap.StartValidator`). This is what `main` does after the secret has been decoded.

Modules, one per concern:

- `Wrappers` (`wrappers.dfy`): `Option` and `Result`.
- `Text` (`text.dfy`): the parts of Rust's standard library the core depends on. These are UTF-8 encoding and strict decoding (`str::as_bytes`, `Path::to_str`), `str::trim` with Unicode White_Space, `u64::to_string`, `u64::from_str`, and `{:x}` hex rendering.
- `Percent` (`percent.dfy`): `urlencoding::encode`.
- `Ovh` (`ovh.dfy`): the OVH client from `src/main.rs`.
- `NodeUtils` (`node_utils.dfy`): `src/node_utils.rs`. Process launches go through the class `Launcher`. Each launch appends the program and its argument list to the field `log`, then returns the outcome that the environment (`outcomeOf`, indexed by launch number) holds for it: an exit with some status, or a spawn failure. `InjectionRun` is the reference definition of what a sequence of `key insert` steps does. The method `InjectSessionKeys` runs three straight-line steps, as the source does, and is proved equal to `InjectionRun` over `InjectionPlan`.
- `Bootstrap` (`bootstrap.dfy`): the tail of `main` in `src/main.rs`. This covers the base-path arguments, the validator's argument list, and the sequence "inject, then launch the validator only if injection returned `Ok`".

Inputs the model takes as parameters instead of performing I/O:

- SHA-1 is the parameter `sha1: Hasher`. It is any function from bytes to a 20-byte `Digest`, so nothing depends on what SHA-1 computes.
- The GET on the time endpoint becomes the parameter `timeResponse`. It holds either the response text or `Err(TransportError)`.
- Process launches are decided by `Launcher.outcomeOf`.

Behaviour of the source worth knowing when reading the model:

- Key insertion order: grandpa first, then aura, then im_online (`src/node_utils.rs:13-72`). So the `--suri` values appear in that order.
- HTTP status: `get_secret_for` (`src/main.rs:152-163`) returns the response without looking at its status.
- Time endpoint failures: a transport failure of the time GET propagates as is (`src/main.rs:64`). Only a body that does not parse becomes the time-sync error (`src/main.rs:65`).
- Subprocess exit codes: the exit code of a `key insert` is ignored (`src/node_utils.rs:32`). Only a failure to spawn or wait is an error (`NodeUtils.ExitCodesIgnored`, `NodeUtils.OkIffThreeSpawned`).

## Model

| member | source | states |
|---|---|---|
| `Text.Utf8` | src/main.rs:75 | `str::as_bytes`: at least one byte per character, and exactly one per character iff every character is ASCII |
| `Text.Utf8Decode` | src/main.rs:145 | `Path::to_str` on raw bytes: whatever it accepts is the UTF-8 encoding of the text it returns |
| `Text.Utf8RoundTrip` | src/main.rs:75 | the UTF-8 bytes that are hashed decode back to the pre-image, so the encoding loses nothing |
| `Text.Utf8Injective` | src/main.rs:75 | distinct strings have distinct UTF-8 bytes |
| `Text.Trim` | src/main.rs:65 | the trimmed text neither starts nor ends with a White_Space character, and it is an infix of the input with only whitespace before and after it |
| `Text.TrimBlank` | src/main.rs:65 | a text of whitespace only trims to the empty string |
| `Text.TrimStart` | src/main.rs:65 | the result is the longest suffix that does not start with whitespace; everything dropped is whitespace |
| `Text.TrimEnd` | src/main.rs:65 | the result is the longest prefix that does not end in whitespace; everything dropped is whitespace |
| `Text.TrimPadded` | src/main.rs:65 | trimming removes exactly the whitespace padding around a text with non-blank ends |
| `Text.Decimal` | src/main.rs:96 | `u64::to_string` is a non-empty digit string with no leading zero |
| `Text.ParseU64` | src/main.rs:65 | `u64::from_str`: an accepted text is an optional `+`, then zeros, then the decimal form of the value returned |
| `Text.ParsePadded` | src/main.rs:65 | conversely, an optional `+` and zeros in front of `decimal(n)` parse to `n` |
| `Text.ParseDecimal` | src/main.rs:65 | parsing the decimal rendering of any `u64` gives it back |
| `Text.ParseCanonical` | src/main.rs:65 | a canonical digit string that parses to `n` is exactly the rendering of `n` |
| `Text.ParseRejectsLeadingNonDigit` | src/main.rs:65 | text that starts with neither `+` nor a digit is not a `u64` |
| `Text.LowerHex` | src/main.rs:76 | `{:x}` of a digest gives two lowercase hex digits per byte |
| `Text.ParseLowerHex` | src/main.rs:76 | the digest can be read back from its `{:x}` rendering |
| `Percent.EncodeByte` | src/main.rs:153 | an unreserved byte passes through; any other byte becomes `%` and two uppercase hex digits holding its high and low nibble |
| `Percent.Encode` | src/main.rs:153 | every output character is unreserved or `%`, and every `%` is followed by two uppercase hex digits |
| `Percent.DecodeEncode` | src/main.rs:153 | percent-decoding the encoded segment gives the path's UTF-8 bytes |
| `Percent.EncodeInjective` | src/main.rs:153 | distinct paths give distinct encoded segments |
| `Percent.EncodedHasNoDelimiter` | src/main.rs:153 | an encoded segment contains no `/`, `?` or `#` |
| `Percent.EncodeSlashExample` | src/main.rs:153 | `a/b` is encoded as `a%2Fb` |
| `Ovh.SignaturePreImage` | src/main.rs:70-73 | the pre-image has the six fields' lengths plus five separators, starts with the app secret, and its last `+`-field is `decimal(ts)` |
| `Ovh.Sign` | src/main.rs:68-77 | the signature is 43 characters: `$1$` followed by 40 lowercase hex digits that read back as the SHA-1 of the pre-image's UTF-8 bytes |
| `Ovh.PreImageIsJoin` | src/main.rs:70-73 | the pre-image is app secret, consumer key, method, URL, body and timestamp, joined by `+` with no escaping |
| `Ovh.EmptyBodyPreImage` | src/main.rs:70-73 | with an empty body, `++` separates the URL from the timestamp |
| `Ovh.TimestampIsLastField` | src/main.rs:70-73 | whatever the other fields hold, the text after the pre-image's last `+` is `decimal(ts)` and parses back to `ts` |
| `Ovh.SignIgnoresAppKey` | src/main.rs:68-77 | two clients with the same secret and consumer key sign identically, so the application key plays no part |
| `Ovh.ParseServerTime` | src/main.rs:65 | succeeds exactly when the trimmed text parses as a `u64`, and then the trimmed text is an optional `+` and zeros before the decimal form of the value returned; every failure is the time-sync error |
| `Ovh.ServerTimeAcceptsPadded` | src/main.rs:65 | whitespace, an optional `+` and zeros around `decimal(n)` parse to `n` |
| `Ovh.OvhTime` | src/main.rs:63-66 | a transport failure of the time GET propagates unchanged; otherwise the result is the parse of the body |
| `Ovh.ServerTimeRoundTrip` | src/main.rs:65 | `decimal(n)` padded with any whitespace parses back to `n` |
| `Ovh.ServerTimeRejectsNonNumeric` | src/main.rs:65 | a trimmed body that is empty, a lone `+`, or starts with anything other than a digit or `+` is a time-sync error |
| `Ovh.ServerTimeRejectsText` | src/main.rs:65 | the body `abc` is a time-sync error |
| `Ovh.SignedHeaders` | src/main.rs:88-98 | the header map has exactly the four `X-Ovh-*` names, plus the JSON content type iff the body is non-empty, holding the application key, consumer key, `decimal(ts)` and the signature |
| `Ovh.SignedHeadersSignRequest` | src/main.rs:85-105 | the request built from those headers and the body (attached iff non-empty) is a signed request for `ts` |
| `Ovh.Send` | src/main.rs:79-108 | fails exactly when the time step fails, with its error; otherwise keeps the method and URL, has headers exactly {the four `X-Ovh-*`} plus `content-type: application/json;charset=utf-8` iff the body is non-empty, sets application key, consumer key, `decimal(ts)` and the signature for that same `ts`, and attaches the body iff it is non-empty |
| `Ovh.TimestampHeaderMatchesSignature` | src/main.rs:85-98 | in a signed request, the timestamp header parses back to the time the signature was computed with |
| `Ovh.SecretUrl` | src/main.rs:155-158 | the URL starts with `api_base/okms/resource/<okms_id>/secret/`, ends with `?includeData=true`, and between them holds only unreserved characters and `%` |
| `Ovh.SecretUrlSegment` | src/main.rs:152-158 | the URL is `api_base/okms/resource/<okms_id>/secret/<seg>?includeData=true`; `seg` has no `/` or `?` and decodes back to the path |
| `Ovh.SecretUrlInjective` | src/main.rs:152-158 | for one store and OKMS id, distinct secret paths give distinct URLs |
| `Ovh.GetSecretFor` | src/main.rs:152-163 | a GET on the secret-read URL, signed with an empty body, with no content type and no payload; fails exactly when the time step fails |
| `NodeUtils.Launcher.Status` | src/node_utils.rs:14-32 | a launch appends exactly its program and argument list to the log; the result is the environment's outcome for that launch number |
| `NodeUtils.InjectionPlan` | src/node_utils.rs:13-72 | three keys with distinct key types, secret URIs grandpa, aura, im_online in that order, Ed25519 exactly for `gran` |
| `NodeUtils.KeyInsertArgs` | src/node_utils.rs:15-31 | the argument list is `key insert --chain <chain>`, then `--scheme`, `--suri`, `--key-type` of the key, then `--password <password>`, then the base-path arguments; 12 plus their number in all |
| `NodeUtils.InsertRun` | src/node_utils.rs:14-32 | one insert makes at most one launch, and one exactly when the path is text; it is `Ok` exactly when the path is text and the launch was spawned |
| `NodeUtils.InjectionRun` | src/node_utils.rs:13-72 | a run makes at most one launch per key, one per key when it returns `Ok`, all of the node binary; an error is the path error when the path is not text and the spawn error otherwise |
| `NodeUtils.InsertKey` | src/node_utils.rs:14-32 | one insert step: the log grows by and the result is that of `InsertRun` for the next launch number |
| `NodeUtils.InjectSessionKeys` | src/node_utils.rs:7-76 | the launches appended and the result returned are those of `InjectionRun` over the grandpa, aura, im_online plan |
| `NodeUtils.RunFollowsPlan` | src/node_utils.rs:13-72 | launch `i` is the `key insert` of plan entry `i` with the path's text; never more launches than keys; none when the path is not text |
| `NodeUtils.RunOkIffAllSpawned` | src/node_utils.rs:32-75 | a run returns `Ok` exactly when the path is text and every launch of the plan was spawned; it then made one launch per key |
| `NodeUtils.RunStopsAtSpawnFailure` | src/node_utils.rs:32-72 | when launch `k` is the first spawn failure, the run has made exactly `k+1` launches and returns the spawn error |
| `NodeUtils.ExitCodesIgnored` | src/node_utils.rs:32-75 | two environments that spawn the same launches give identical runs, whatever the exit codes |
| `NodeUtils.InvalidSpecPathLaunchesNothing` | src/node_utils.rs:19-21 | a chain-spec path that is not valid UTF-8 gives the path error before any launch |
| `NodeUtils.ThreeKeysInOrder` | src/node_utils.rs:13-72 | with three spawns, the run returns `Ok` after exactly the (Ed25519, gran, grandpa), (Sr25519, aura, aura) and (Sr25519, imon, im_online) inserts, in that order |
| `NodeUtils.OkIffThreeSpawned` | src/node_utils.rs:32-75 | `inject_session_keys` returns `Ok` exactly when the path is text and all three launches were spawned |
| `NodeUtils.SpawnFailureAbortsRest` | src/node_utils.rs:32-72 | a spawn failure at launch `k` is returned after `k+1` launches, and no later key is inserted |
| `NodeUtils.EveryLaunchShape` | src/node_utils.rs:15-31 | every launch runs the node binary with `key insert --chain <spec>`, then `--password <keystore_secret>` at positions 10-11, then the caller's base-path arguments last |
| `NodeUtils.NodeKeyNotUsed` | src/node_utils.rs:22-29 | secrets that differ only in the node key give identical injection runs |
| `Bootstrap.BasePathArgs` | src/main.rs:128-131 | empty exactly when no base path is given, otherwise `--base-path <p>` |
| `Bootstrap.ValidatorArgs` | src/main.rs:140-147 | the base-path arguments, then `--validator --node-key <N> --chain <spec or ""> --password <P>`, then the extra arguments |
| `Bootstrap.BootstrapRun` | src/main.rs:133-148 | at most four launches, all of the node binary; a fourth launch is the validator with `ValidatorArgs`; an `Ok` result means four launches and a chain-spec path that is text |
| `Bootstrap.StartValidator` | src/main.rs:128-148 | the launches appended and the result are those of `BootstrapRun`: injection, then the validator launch only after `Ok` |
| `Bootstrap.EndToEnd` | src/main.rs:128-147 | with four spawns: the grandpa, aura and im_online inserts in order, then the validator argv `base ++ [--validator, --node-key, N, --chain, spec, --password, P] ++ extra`; the result is the validator's exit status |
| `Bootstrap.ValidatorOnlyAfterKeys` | src/main.rs:133-148 | the validator is launched, as the fourth launch, exactly when injection succeeded; every other launch is a `key insert` |
| `Bootstrap.ValidatorChainIsSpecPath` | src/main.rs:145 | whenever the validator is launched, its `--chain` value is the spec path's text; the empty-string fallback is never reached |
| `Bootstrap.BasePathEverywhere` | src/main.rs:128-141 | the base-path arguments are `--base-path <p>` or nothing; they come last in every `key insert` and first in the validator's argument list |

## Left out

- SHA-1 itself (the `sha1` crate) is not modelled. It is the parameter `sha1`, and the only assumption is that it returns 20 bytes.
- `urlencoding::encode` is not part of this model's sources. `Percent.Encode` assumes it encodes UTF-8 bytes as sections 2.1 and 2.3 of RFC 3986 describe: unreserved characters pass through and every other byte becomes `%XX` with uppercase hex.
- `Ovh.Send`: does not model the error that `HeaderValue::from_str` raises when the application key, consumer key or signature holds a byte that is not allowed in a header value (`src/main.rs:95-98`). It promises a request whenever the time step succeeds.
- `Ovh.Send`: does not model sending the request or its transport failure (`src/main.rs:107`). It returns the assembled request instead of the response.
- `Ovh.GetSecretFor`: returns the signed request. The HTTP exchange and the JSON decoding of the response into `SecretResponse` (`src/main.rs:126`, a serde derive) are not modelled. Only the record's shape is.
- `Ovh.OvhTime`: the GET on `https://api.ovh.com/1.0/auth/time` (`src/main.rs:64`) is the input `timeResponse`.
- `Text.ParseU64`: keeps whether `u64::from_str` succeeds and its value. It does not keep which `ParseIntError` kind it reports, because the source passes any of them on as the same failure.
- `Ovh.Method`: only the nine standard HTTP methods are modelled. Extension methods are never used by the source.
- `OvhClient::new` (`src/main.rs:47-61`): the HTTP client it builds, and that build's possible failure, are left out. `Ovh.OvhClient` keeps the four credential and endpoint fields.
- `main` before `src/main.rs:128` is left out: argument parsing, the binary and chain-spec downloads, client construction and the secret fetch. `Bootstrap.StartValidator` starts from the decoded secret. `src/downloader.rs` and `src/cli.rs` are not part of this model.
- The validator's exit status is the result of `Bootstrap.StartValidator`. The model does not cover turning it into the process exit code with `std::process::exit` (`src/main.rs:149`).
- The message printed after injection (`src/node_utils.rs:74`) is left out. It is output only.
- `NodeUtils.OsPath` models a Unix path as raw bytes, where `to_str` is strict UTF-8 validation. Other platforms' path encodings are left out.
- The test that calls the live time endpoint through `OvhClient::default()` (`src/main.rs:170-174`) needs the network and is left out.

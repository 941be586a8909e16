# Verified model of the tunnel client and its release signer

This project models, in Dafny, the self-contained logic of a reverse-proxy client (a Rust port of frp's client
side) and of the script that signs its releases, and proves what that logic is for. Source paths are relative to
the repository's root.

| component | modules | main results |
|---|---|---|
| wildcard matcher of `includes` | `Glob`, `GlobMeaning`, `GoMatch` | `GlobInner`, `GlobExactly`, `AlignedIff` |
| Ed25519 of the release script | `Modular`, `Fermat`, `Curve`, `EdwardsLaw`, `Scalar`, `PointCodec`, `Pruning`, `Signature`, `Exactness`, `Ed25519`, `TinyCurve` | `XRecoverCorrect`, `AddClosed`, `DecodeEncode`, `EncodeDecode`, `EverySignatureVerifies`, `AcceptedExactly`, `OneSignatureVerifies` |
| dynamic proxies: table, store file, command handlers | `Proxies`, `Registry`, `Persistence`, `Lifecycle`, `Admission`, `ClientLoop` | `RunInv`, `OnlyVettedEntries`, `ConfigEntriesStable`, `TargetIsLastRewrite`, `RestartRestores`, `SafeNames`, `NewerFileSurvives` |
| SOCKS5, both ends | `Socks5`, `Socks5Impl`, `Socks5Exact` | `HandshakeEnds`, `HandshakeTerminates`, `TunnelConserved`, `ServerAgainstClient`, `ClientAgainstServer`, `ReplyConsumed`, `ConnectedOnReply` |
| byte and text formats | `Dns`, `DnsExact`, `Http1`, `RequestText`, `Probe`, `Query`, `Ports` (with `Seqs`, `Text`, `Numbers`) | `ParsedExactly`, `EncodableIff`, `QueryInjective`, `RequestRead`, `ReceivedExactly`, `ProbeReadBack`, `DecodeExactly`, `QueryExactly`, `ParseExactly`, `ParseFormat` |
| hole punching and health | `Punch`, `Health` | `EachToItsOwn`, `WaitersExactIff`, `SeededHealth` |

Code that changes state is modelled as it is written: classes (`ProxyTable`, `Store`, `FileSystem`, `Client`,
`Stream`, `Io`, `PunchBus`, `Monitor`) with methods that reassign their fields, and loops with invariants. Each such
method is proved to compute a step or a value of a specification on values; the theorems over whole runs are about
that specification. A source loop or function that is long is split into methods along its own branches: `Accept`
and `SkipStars` of `glob_inner`, `TellApart` of the startup code, `ParseOne` of `parse_port_ranges`,
`ReadRecord` and `ReadRecords` of `parse_response`, `Greeting`, `Authenticate`, `TakeAddress` and
`ServeRequest` of `socks5::serve`, `ChooseMethod`, `SendConnect` and `ReadReply` of `socks5_connect`.

## Hypotheses

* Ed25519: that 2^255 - 19 is prime, that the curve addition is associative on the points of the curve, and that
  L times the base point is the neutral element; and, only for `OneSignatureVerifies`, which says that nothing else is
  accepted, that L is prime. Everything else is proved: Fermat's little theorem, that 2 is no
  square for q = 5 (mod 8) and so the script's I is a root of -1, that the curve constant d is no square, that the
  addition never divides by zero and stays on the curve, the neutral element and commutativity, and that the
  script's base point lies on the curve. SHA-512 is an arbitrary function to 64 bytes. The hypotheses do not
  contradict each other: over the field of five elements all of them are proved (`TinyCurve`).
* The store: `validate_remote_proxy` is an arbitrary predicate and the JSON form an arbitrary pair of functions.
  `RestartRestores` needs the second to invert the first, and the results about newer files need that no beginning
  of a serialisation passes for a newer file (the beginning of a JSON object is no JSON at all). The file system
  compares names after folding them character by character, by a parameter; `SafeNames` needs the folding to keep
  dots.
* SOCKS5: user names and passwords the client is given have at most 255 bytes (longer ones would be sent with a
  truncated length); host names may have any length.
* Hole punching: transaction ids are meant to be unique, and the one caller draws each from 16 random bytes. The hub
  itself does not check it; `WaitersExactIff` says how much less is enough, and `RepeatedIdLosesTheFirst` is a run
  without it.
* Health: `record` is called only for the names `Monitor::start` has seeded. `UnseededHealth` and `SeedMatters` say
  what the seed is for. `SeededHealth` takes one threshold for a name; a configuration without `includes` may name a
  checked proxy twice, with different thresholds, and `SeededHealthByProbes` covers every history.

## Where the code differs from what is written about it

* The write of the store file is promised to be atomic. For every character folding that keeps dots it is so for
  exactly the names that have a file name whose extension is not `tmp` (`SafeNames`). A name with that extension is
  its own temporary file, and a failed flush can lose it. For `.` and `..`, which are no file names, creating the
  temporary file fails on every real file system, so nothing is lost there.
* The warning about a store file of a newer format says that it will not be overwritten. Whatever the store file is
  called, it stays if and only if no step disturbs it (`NewerFileStep` for one step of any kind, `NewerFileSurvives`
  for whole runs). A step disturbs it when it is an accepted addition or the removal of a remembered name and its
  flush is committed; or, when the store file is its own temporary file, when that flush gets as far as removing
  the temporary file. `NewerFileReplaced` and `NewerFileRemoved` are a run of each kind, and `CollidingFlush` says
  what is left in the second.
* The matcher is said to be aligned with Go's `filepath.Match` on file names; compared here is Go's documented
  meaning, as its `path/filepath` package gives it (the implementation lets `*` stop inside the bytes of a
  character). The two read a pattern alike exactly when Go accepts it, nothing in it is escaped and no class starts
  with `!` (`ReadAlike`, every pattern). For patterns without a backslash the answers agree on all names of one path
  component exactly for those, and for the ones neither can match at all (`AlignedIff`). With a backslash they part
  where the first unlike elements differ (`ApartIf`, `EscapeParts`). Inputs on which they part are in `BangNegates`,
  `EscapeIsLiteral` and `Malformed`; the latter holds the unclosed `[`, where the difference is intended, and a
  leading `]` in a class, which the code takes for Go's behaviour and Go rejects. That `*` and `?` also match `/` is
  no difference on file names (`StarCrosses`).

## Model

| member | source | states |
|---|---|---|
| Glob.MatchClass | common/src/config.rs:3261-3292 | closes or not, and where, by the pattern alone; the answer is membership in the ranges xor negation, for every character |
| Glob.Accept | common/src/config.rs:3213-3236 | one pattern element accepts a character exactly when its token does, and the pattern goes on after that token |
| Glob.GlobInner | common/src/config.rs:3193-3255 | the single-star backtracking loop returns true exactly when some split of the name matches the token sequence; it terminates and no index leaves its range |
| Glob.GlobMatch | common/src/config.rs:3148-3152 | the same for the entry point |
| Glob.ForgetOlderStar | common/src/config.rs:3201-3209 | when a new star is met, no match is lost by forgetting the older one |
| Glob.CollapseStars | common/src/config.rs:3203-3207 | a run of stars means the same as its last star |
| Glob.Mismatch | common/src/config.rs:3239-3247 | on a mismatch the remembered star takes one more character without losing a match, and without a star there is none |
| Glob.Finish | common/src/config.rs:3250-3254 | at the end of the name the pattern matches exactly when only stars are left |
| GlobMeaning.EveryPattern | common/src/config.rs:3193-3292 | every text is written from pieces: stars, question marks, sets in brackets, and characters that stand for themselves |
| GlobMeaning.GlobIsCut | common/src/config.rs:3193-3292 | in terms of the pattern's text alone: the name matches exactly when it can be cut into one stretch for each piece, any stretch for `*`, any one character for `?`, one that is in the ranges (or is not, after `^` or `!`) for a set, itself for everything else, an unclosed `[` included |
| GlobMeaning.GlobExactly | common/src/config.rs:3148-3152 | the same for every text as pattern and every name, whichever way the pattern is written from pieces |
| GlobMeaning.QuestionMark | common/src/config.rs:3210-3214 | `?` matches exactly the names of one character, whatever it is |
| GoMatch.ReadAlike | common/src/config.rs:3261-3292 | for every pattern, Go reads it as the matcher does if and only if Go accepts it, it holds no backslash and no class starts with `!` |
| GoMatch.Agreement | common/src/config.rs:3135-3147 | on such patterns and names of one component the answers are the same |
| GoMatch.AlignedIff | common/src/config.rs:3135-3147 | against Go's documented meaning, the exact condition for every pattern without backslashes: the answers agree on all names of one component if and only if the pattern is so read, or neither can match anything |
| GoMatch.ApartIf | common/src/config.rs:3230-3236 | escapes included: two readings that can match and whose first unlike elements accept different characters answer some component differently |
| GoMatch.EscapeParts | common/src/config.rs:3230-3236 | so it is for an escape outside classes in front of anything but a backslash |
| GoMatch.EscapesCanAgree | common/src/config.rs:3269-3290 | a pattern with an escape on which the two agree all the same |
| GoMatch.StarCrosses | common/src/config.rs:3201-3209 | `*` crosses a separator, for which Go answers false |
| GoMatch.BangNegates | common/src/config.rs:3264-3267 | a class that starts with `!` is negated here and not for Go |
| GoMatch.Malformed | common/src/config.rs:3270-3290 | a class that starts with `]`, holds a bare `-` or never closes is malformed for Go |
| GoMatch.EscapeIsLiteral | common/src/config.rs:3230-3236 | a backslash is an ordinary character here and an escape for Go |
| Fermat.LittleTheorem | scripts/release.py:130-131 | Fermat: a to the p - 1 is 1, which makes the script's inverse an inverse |
| Fermat.RootOfMinusOne | scripts/release.py:135-135 | for a prime q = 5 (mod 8), 2 to the (q - 1)/4 squares to -1 |
| Curve.InvIsInverse | scripts/release.py:130-131 | the script's inverse inverts every number that is not 0 modulo q |
| Curve.DenominatorNonzero | scripts/release.py:139-139 | the denominator of the root recovery never vanishes |
| Curve.CandidateRoot | scripts/release.py:140-141 | the candidate root of a square squares to it or to its negative |
| Curve.CorrectRoot | scripts/release.py:141-142 | after the correction by I the root is x or q - x |
| Curve.XRecoverCorrect | scripts/release.py:138-145 | from the y of any curve point, the even one of x and q - x (RFC 8032 section 5.1.3) |
| EdwardsLaw.NeverASign | scripts/release.py:154-159 | d x1 y1 x2 y2 is never 1 or -1 on two curve points |
| EdwardsLaw.DenominatorsInvertible | scripts/release.py:157-158 | both inversions of the addition are real divisions |
| EdwardsLaw.AddClosed | scripts/release.py:154-159 | the sum of two curve points is a curve point in normal form |
| EdwardsLaw.AddIdentity | scripts/release.py:151-159 | the script's neutral point is neutral on both sides |
| EdwardsLaw.AddCommutes | scripts/release.py:154-159 | the addition is commutative |
| EdwardsLaw.EdwardsSum | scripts/release.py:154-159 | the sum is the one the twisted Edwards addition law gives, as an equation without divisions |
| Scalar.ScalarMult | scripts/release.py:162-170 | the double-and-add loop returns the e-fold sum of its point |
| Scalar.DoubleAndAddIsTimes | scripts/release.py:162-170 | double-and-add is repeated addition, for every e |
| Scalar.TimesModulo | scripts/release.py:214-216 | scalars may be reduced modulo the order of the point |
| PointCodec.EncodingValue | scripts/release.py:173-181 | the 32 bytes are y with the parity of x as bit 255, little-endian |
| PointCodec.EncodedNumber | scripts/release.py:173-181 | the same for every tuple: y modulo q below, the parity of x modulo q as bit 255 |
| PointCodec.DecodeEncode | scripts/release.py:173-190 | decompressing a compressed point gives the point back, for every curve point (RFC 8032 sections 5.1.2 and 5.1.3) |
| PointCodec.EncodeDecode | scripts/release.py:173-190 | compressing what 32 bytes decompress to gives the bytes back exactly when their y is reduced and no zero x is marked odd |
| PointCodec.DecodedOnCurve | scripts/release.py:138-190 | what 32 bytes decompress to lies on the curve exactly when some point of the curve has their y |
| Signature.ClampedScalar | scripts/release.py:193-199 | the secret scalar is a multiple of 8 with top bit 254 |
| Pruning.ClampIsPruned | scripts/release.py:197-199 | the scalar is the first 32 bytes of the digest with the bits cleared and set that RFC 8032 section 5.1.5 names |
| Signature.SignatureEquation | scripts/release.py:209-233 | with s = r + k a mod L, sB = rB + k(aB) |
| Signature.KeyDecodes | scripts/release.py:202-206 | an encoded multiple of the base point decodes to that multiple |
| Signature.SignedIsAccepted | scripts/release.py:202-233 | on any suitable curve, `verify` accepts what `sign` returns for every seed, message and hash |
| Exactness.KeyIsMultiple | scripts/release.py:202-206 | the public key is the encoded multiple of the base point by the pruned digest; a seed of another length has none |
| Exactness.SignatureHalves | scripts/release.py:209-217 | R encodes the nonce's multiple of the base point, s is r + k a modulo L, with r and k the digests of RFC 8032 section 5.1.6 |
| Exactness.Refused | scripts/release.py:220-225 | a wrong length, or an s that is not below L, is refused |
| Exactness.AcceptedOnCurve | scripts/release.py:219-233 | for encoded points of the curve: accepted exactly when s is below L and sB = R + kA, in terms of repeated addition |
| Exactness.AcceptedExactly | scripts/release.py:219-233 | for encoded multiples of a base point without a smaller order: of all numbers of 32 bytes exactly (r + k a) mod L is accepted as second half |
| Exactness.AcceptedForKey | scripts/release.py:202-233 | so it is for the key of every seed |
| Exactness.OtherMessage | scripts/release.py:219-233 | a signature made for one message is accepted for another if and only if the two k a agree modulo L |
| Exactness.PrimeOrderIsLeast | scripts/release.py:120-120 | a prime order is the least, so that the base point has no smaller one |
| Curve.TwoHasNoRoot | scripts/release.py:135-135 | 2 is no square for a prime q = 5 (mod 8) |
| Ed25519.DIsNotASquare | scripts/release.py:134-134 | the script's curve constant is no square |
| Ed25519.ConstantValues | scripts/release.py:134-149 | the curve constant and base point the script computes have their standard values |
| Ed25519.BaseOnCurve | scripts/release.py:148-150 | the script's base point lies on its curve |
| TinyCurve.HypothesesCanBeMet | scripts/release.py:118-151 | the hypotheses of the signature theorem hold together on a small curve, so it is not empty |
| TinyCurve.OrderIsLeast | scripts/release.py:118-151 | so do those of the exact acceptance |
| Ed25519.EverySignatureVerifies | scripts/release.py:118-233 | the same for the script's own constants |
| Ed25519.OneSignatureVerifies | scripts/release.py:118-233 | with the script's own constants and a prime L, `verify` accepts exactly one second half for the key of a seed and a first half rB: (r + k a) mod L |
| Registry.ProxyTable.FromIter | client/src/registry.rs:60-73 | all entries Config, the last one of a name wins |
| Registry.ProxyTable.LoadDynamic | client/src/registry.rs:81-93 | restored entries are Dynamic and never replace an entry; the first of a name wins |
| Registry.ProxyTable.InsertDynamic | client/src/registry.rs:136-158 | refused exactly for Config entries, and then nothing changes |
| Registry.ProxyTable.RemoveDynamic | client/src/registry.rs:163-177 | refused exactly for Config entries, and then nothing changes |
| Registry.ProxyTable.Insert | client/src/registry.rs:182-193 | the new value under the old origin, Dynamic for a new name |
| Registry.ProxyTable.Remove | client/src/registry.rs:198-204 | the entry is gone whatever its origin |
| Persistence.Store.FromConfig | client/src/store.rs:77-126 | memory is the restorable proxies of a readable, parsable file that is not newer, the last of a name winning; otherwise empty |
| Persistence.Store.Open | client/src/store.rs:72-159 | the same, with an error exactly when the directory of the store cannot be created |
| Persistence.Store.Put | client/src/store.rs:179-185 | memory first, then one flush, whatever comes of it |
| Persistence.Store.Remove | client/src/store.rs:188-197 | memory first; flushed exactly when the name was there |
| Persistence.Store.Flush | client/src/store.rs:204-310 | the directory after each way a flush can fail or be cut short |
| Persistence.MergeInitial | client/src/store.rs:339-367 | configuration first, then every restorable stored proxy with a new name |
| Proxies.LoadLists | client/src/store.rs:82-126 | loading a file that lists a map gives the restorable part of the map |
| Proxies.TmpCollides | client/src/store.rs:214-214 | for every character folding that keeps dots, the temporary name is the target exactly for names with the extension `tmp` and for paths without a file name |
| Lifecycle.StepInv | client/src/main.rs:1944-2089 | every command, however its flush ends, keeps each Dynamic entry equal to the remembered one, every other remembered name on a Config entry still there, and Config entries as configured |
| Lifecycle.RunInv | client/src/main.rs:298-317 | the same after every run of commands, crashes and restarts |
| Lifecycle.ConfigEntriesStable | client/src/registry.rs:125-177 | over every run between restarts the Config entries left are exactly those of its start that no web command has removed, with the same values; remote commands never change or delete one |
| Lifecycle.RemoveUndoesAdd | client/src/main.rs:1953-2089 | a remote removal undoes the remote addition of a new name, in table and memory, whatever becomes of the flushes short of a crash |
| Lifecycle.AtomicIff | client/src/store.rs:199-310 | a flush replaces the target by the whole new text or leaves it alone, wherever it fails or dies, exactly when the temporary file is another file |
| Lifecycle.SafeNames | client/src/store.rs:199-214 | in terms of the path, for every character folding that keeps dots: exactly when there is a file name whose extension is not `tmp` |
| Lifecycle.StepKeepsTarget | client/src/store.rs:179-310 | after each step the file is the serialisation of the last memory whose flush was committed |
| Lifecycle.RunKeepsTarget | client/src/store.rs:179-310 | over every run with failures and crashes inside any flush, the file is always such a complete serialisation |
| Lifecycle.TargetIsLastRewrite | client/src/store.rs:179-310 | the same in terms of the events: the file is as at first when no step has rewritten it, and otherwise the serialisation of the memory right after the last step that has |
| Lifecycle.StepTarget | client/src/store.rs:179-310 | where the temporary file is another file, for every event: the store file is the new serialisation when the event is an accepted addition or the removal of a remembered name with a committed flush, and unchanged otherwise |
| Lifecycle.NewerFileStep | client/src/store.rs:85-92 | whatever the store file is called, a file of a newer format survives a step if and only if the step does not disturb it |
| Lifecycle.NewerFileSurvives | client/src/store.rs:68-92 | over every run, restarts and crashes included, it is still there if and only if no step has disturbed it |
| Lifecycle.NewerFileReplaced | client/src/store.rs:85-92 | a run that loses a file of a newer format: one accepted addition leaves the added proxy alone |
| Lifecycle.NewerFileRemoved | client/src/store.rs:214-266 | another, for a store file that is its own temporary file: nothing is committed and the file is gone |
| Lifecycle.CollidingFlush | client/src/store.rs:214-307 | a flush whose temporary file is the store file leaves an existing file alone when it dies first or cannot remove it, and otherwise leaves nothing or the beginning of the new text |
| Lifecycle.FlushMakesCurrent | client/src/store.rs:204-310 | after a flawless flush the file would restore the restorable part of memory |
| Lifecycle.CleanRun | client/src/store.rs:179-310 | over a run without failures the file always would |
| Lifecycle.RestartRestores | client/src/store.rs:339-367 | after a clean run and a restart the Dynamic entries are exactly the earlier ones that pass remote validation and are not configured |
| Admission.OnlyVettedEntries | client/src/main.rs:1944-2089 | over every run from a start, restarts and crashes included: every Dynamic entry and every remembered proxy has a name and passes remote validation, or was brought by a local addition of the run that passed local validation |
| Admission.RemoteAddEffect | client/src/main.rs:2034-2089 | a remote addition, exactly: without a name, a type or remote validation, or against a Config entry, nothing changes; otherwise table and memory hold the proxy |
| Admission.RemoteRemoveEffect | client/src/main.rs:1953-2015 | a remote removal, exactly: the Dynamic entry of the name as given, or else of the name without the client's own prefix, is gone from table and memory; otherwise nothing changes |
| Admission.AcceptedIff | client/src/web.rs:724-783 | the wait ends well exactly when the first message that is not a work request, a pong or another kind is a response without error |
| Admission.WebAddEffect | client/src/web.rs:241-268 | a local addition, exactly: a blank name or type, failed local validation, a taken name, a send that fails or any other answer changes nothing |
| Admission.WebRemoveEffect | client/src/web.rs:786-812 | a local removal, exactly, whatever the origin |
| Admission.LoadedExactly | client/src/store.rs:77-126 | of a usable file of version 1 or less, the last item of each name among those with a name and past remote validation is in memory, and nothing else; of any other file nothing is |
| Admission.StartedTable | client/src/main.rs:298-388 | after a start the last configured proxy of each configured name is Config, and every other entry is what is in memory |
| Admission.OnlyCrashesStop | client/src/store.rs:199-310 | a flush that does not die succeeds exactly when it is committed |
| Admission.ScratchAfter | client/src/store.rs:214-307 | what a flush leaves under the temporary name: nothing after a commit, and at most what was there or a beginning of the new text otherwise |
| Admission.OthersUntouched | client/src/store.rs:199-310 | no other file is touched |
| Admission.StaysUp | client/src/main.rs:1953-2089 | no command ends the process unless its flush dies |
| ClientLoop.TellApart | client/src/main.rs:376-388 | the two filters over the merged list |
| ClientLoop.ConfiguredAgain | client/src/main.rs:304-381 | filtering the merged list by the configured names gives the configuration back |
| ClientLoop.RestoredAll | client/src/main.rs:383-388 | every restorable stored proxy with a new name is loaded |
| ClientLoop.Client.constructor | client/src/main.rs:304-388 | startup with an opened store is the starting state of the machine |
| ClientLoop.Client.Launch | client/src/main.rs:298-388 | startup fails when the store does, and is the starting state of the machine otherwise |
| ClientLoop.Client.FirstTable | client/src/main.rs:376-388 | the table is the configuration plus the restored proxies, told apart by origin |
| ClientLoop.Client.RemoteAdd | client/src/main.rs:2034-2089 | `add_proxy_cmd` is the machine's step and says when it refuses |
| ClientLoop.Client.RemoteRemove | client/src/main.rs:1953-2015 | `remove_proxy` with the retry under the stripped name is the machine's step and says when it refuses |
| ClientLoop.Client.WebAdd | client/src/web.rs:696-784 | insert, wait and roll back is the machine's step; every failure leaves table, store and file as before, whatever messages came |
| ClientLoop.Client.WebRemove | client/src/web.rs:786-812 | `remove_live` is the machine's step |
| Socks5.StartInv | common/src/net_proxy.rs:209-216 | the greeting leaves the two ends in a joint state |
| Socks5.StepInv | client/src/plugin.rs:401-491 | every read, delivery of a fragment, close and tunnel byte keeps the joint states of the two ends |
| Socks5.RunInv | client/src/plugin.rs:401-491 | so does every run, over every fragmentation |
| Socks5.Progress | common/src/net_proxy.rs:196-315 | no deadlock before both ends are through |
| Socks5.Verdict | client/src/plugin.rs:416-493 | connected exactly when the server asks for no user or the credentials are equal, the host name fits and the target is reached; the server then has the address and port asked for (RFC 1928 sections 3 to 6, RFC 1929 section 2) |
| Socks5.TunnelConserved | client/src/plugin.rs:488-493 | over every run and fragmentation, tunnel traffic included: what is unread after the handshake is exactly what was sent into the tunnel, both ways, the prefetch buffer is empty when relaying starts, and the verdict is right |
| Socks5.HandshakeTerminates | common/src/net_proxy.rs:196-315 | every run of the handshake is bounded |
| Socks5.HandshakeEnds | common/src/net_proxy.rs:196-315 | a run that cannot go on has ended with the right verdict and nothing unread |
| Socks5Impl.Io.ReadExact | client/src/plugin.rs:167-179 | reads from the prefetched bytes followed by the connection, as one stream |
| Socks5Impl.Greeting | client/src/plugin.rs:407-433 | version, methods and answer as the machine does them |
| Socks5Impl.Authenticate | client/src/plugin.rs:421-429 | the credentials' answer as the machine gives it |
| Socks5Impl.ReadUserPass | client/src/plugin.rs:497-511 | accepted exactly when user and password are the configured ones |
| Socks5Impl.ServeRequest | client/src/plugin.rs:435-491 | request, address, port and reply as the machine does them |
| Socks5Impl.Serve | client/src/plugin.rs:401-494 | `serve` ends in the state, with the output and with the unread bytes of the server machine |
| Socks5Impl.Connect | common/src/net_proxy.rs:196-315 | `socks5_connect` ends in the state, with the output and with the unread bytes of the client machine |
| Socks5Impl.ServerAgainstClient | client/src/plugin.rs:401-494 | given the client's bytes, the server says what the client needs and leaves nothing unread |
| Socks5Impl.ClientAgainstServer | common/src/net_proxy.rs:196-315 | given the server's bytes, the client says what the server was given and has read exactly to the end of the reply |
| Socks5Exact.ReplyConsumed | common/src/net_proxy.rs:283-314 | byte conservation for every successful reply of RFC 1928 section 6, whatever its kind of address: exactly the reply is read, and what follows is the tunnel's |
| Socks5Exact.ConnectedOnReply | common/src/net_proxy.rs:283-314 | the client connects on nothing but a whole successful reply |
| Socks5Exact.ReplyRefused | common/src/net_proxy.rs:288-306 | another version, a code other than 0 or an unknown address type makes it give up |
| Socks5Exact.MethodAnswered | common/src/net_proxy.rs:225-252 | what every answer to the greeting leads to |
| Socks5Exact.CredentialsAnsweredBy | common/src/net_proxy.rs:241-249 | the answer to the credentials is good exactly when its second byte is 0 |
| Socks5Exact.GreetingSent | common/src/net_proxy.rs:211-218 | the greeting, byte for byte |
| Socks5Exact.CredentialsSent | common/src/net_proxy.rs:233-237 | the credentials, byte for byte |
| Socks5Exact.RequestSentAs | common/src/net_proxy.rs:255-276 | the request, byte for byte, for each kind of address; none for a host name of more than 255 bytes |
| Socks5Exact.GreetingRead | client/src/plugin.rs:410-435 | the greeting of any client: the answer for every version and list of methods |
| Socks5Exact.CredentialsRead | client/src/plugin.rs:497-511 | accepted exactly when both are the configured ones, for every version, user and password |
| Socks5Exact.RequestRead | client/src/plugin.rs:438-491 | the request of any client: address, port, reply and outcome for every version, command and kind of address |
| Socks5Exact.UnknownAddress | client/src/plugin.rs:460-460 | an unknown address type is refused without a reply |
| Socks5Exact.CutOff | client/src/plugin.rs:401-466 | a client that stops in the middle of a message is refused and told nothing more |
| Dns.BuildQuery | common/src/dns.rs:124-149 | a query for exactly the names whose labels all have 1 to 63 bytes |
| DnsExact.EncodableIff | common/src/dns.rs:132-144 | those names are labels of 1 to 63 bytes with single dots between them and any number of dots behind, and the query spells out these labels |
| DnsExact.QueryBytes | common/src/dns.rs:124-149 | byte for byte: the id, recursion desired, one question and nothing else, the labels, the type, the class IN |
| Dns.QueryReadBack | common/src/dns.rs:124-149 | the question gives back labels and type, and skipping the name lands four bytes before the end (RFC 1035 section 4.1.2) |
| Dns.QueryInjective | common/src/dns.rs:124-149 | equal queries come from equal ids, types and names, trailing dots aside |
| Dns.SkipName | common/src/dns.rs:243-264 | total and in bounds on every buffer; the end of the name |
| Dns.ParseResponse | common/src/dns.rs:178-240 | total and in bounds on arbitrary bytes; never empty and only addresses of the asked family, so `ips[0]` is defined |
| Dns.RecordsAreAddresses | common/src/dns.rs:221-231 | everything collected has 4 or 16 bytes as asked |
| Dns.NameEndsAt | common/src/dns.rs:243-264 | a name of labels ended by a zero byte or a compression pointer is skipped exactly |
| DnsExact.NameEndExactly | common/src/dns.rs:243-264 | a name is skipped exactly where labels of 1 to 63 bytes are followed by a zero byte or a pointer |
| DnsExact.HeaderChecked | common/src/dns.rs:178-195 | on arbitrary bytes, nothing is accepted without the asked id, QR set and rcode 0 |
| DnsExact.ParsedExactly | common/src/dns.rs:178-240 | accepted are exactly the bytes of the responses with the asked id, QR set, rcode 0 and at least one address of the asked family, with the data of those records as the result (RFC 1035 section 4.1) |
| DnsExact.AnswersInOrder | common/src/dns.rs:221-231 | each record counts when it is of the asked type with 4 bytes for A and 16 for AAAA, in the order of the records |
| Dns.ResponseDecoded | common/src/dns.rs:178-240 | every built answer, read with any id: exactly the wanted data in order when the id is its own, QR is set, the rcode is 0 and there is such data, and an error otherwise |
| Http1.OffsetStable | common/src/http1.rs:151-153 | once found, the end of the head stays where it is when more arrives |
| Http1.ReadRequest | common/src/http1.rs:115-149 | the loop parses what its reads add up to when it stops |
| Http1.ReceivesAll | common/src/http1.rs:122-147 | on a complete message the loop never stops early, and reads nothing after it |
| Http1.SegmentationIndependent | common/src/http1.rs:115-149 | every division of a complete message into nonempty chunks gives the parse of the whole, whatever follows |
| RequestText.RequestRead | common/src/http1.rs:115-185 | for a request line, header lines and a body of the length the first content-length line declares: however its bytes arrive and whatever follows, exactly it is read, and verb, path, query, head and body are recovered |
| RequestText.LengthDeclared | common/src/http1.rs:139-143 | `Content-Length` in any letter case with the decimal digits of a length declares that length |
| RequestText.WantedExactly | common/src/http1.rs:139-143 | the wanted length is the number in the first content-length line, and 0 without one or when it is no number of 64 bits |
| RequestText.ReceivedExactly | common/src/http1.rs:122-147 | for every stream: reading stops at the first moment with more than 262144 bytes, or with a head and the wanted bytes after it, or at the end |
| RequestText.MessageParsed | common/src/http1.rs:161-185 | verb in capitals, path and query of the target, the body and the lines of the head |
| RequestText.HeaderOfMessage | common/src/http1.rs:89-99 | a header lookup gives the value of the first line of that name |
| RequestText.HeaderExactly | common/src/http1.rs:92-95 | which lines bear a name: letter case and white space around it aside |
| RequestText.FindBlankExactly | common/src/http1.rs:151-153 | the blank line found is the first |
| RequestText.LinesExactly | common/src/http1.rs:91-91 | a text is its lines with line breaks between, and no line holds one |
| RequestText.WordsExactly | common/src/http1.rs:167-169 | the words are what stands between stretches of white space |
| Text.TrimEmpty | client/src/web.rs:247-252 | the trimmed text is empty exactly when there is nothing but white space |
| Text.TrimExactly | common/src/http1.rs:93-94 | trimming takes off exactly the white space at both ends |
| Probe.BuildProbeRequest | client/src/health.rs:189-214 | the text is the request line, the cleaned header lines and the fixed ones, each ended, then an empty line |
| Probe.LinesInOrder | client/src/health.rs:189-214 | line by line: `name: value` without line breaks for each header with a name, `Host` for that one in any case, a Host line of its own only when none is configured, and `Connection: close` |
| Probe.LineReadBack | common/src/http1.rs:89-99 | a written header line is read back under its name with its cleaned and trimmed value |
| RequestText.BlankAtEnd | client/src/health.rs:212-213 | the only blank line is the last |
| Probe.ProbeReadBack | client/src/health.rs:189-214 | the repository's parser recovers method, path, empty query and body, and under every name the first configured value or the fixed one |
| Probe.HostLineCount | client/src/health.rs:203-211 | every configured Host line is written, and one when there is none |
| Query.PercentDecode | common/src/http1.rs:208-245 | the loop decodes as the recursive meaning says |
| Query.DecodeExactly | common/src/http1.rs:208-245 | decoding gives a text for exactly the ways to write it: `+` for a space, `%` with two hexadecimal digits for their character, everything else itself, a `%` that escapes nothing included (RFC 3986 section 2.1) |
| Query.NothingToDecode | common/src/http1.rs:222-231 | text without plus signs and well-formed escapes stays as it is |
| Query.ParseQuery | common/src/http1.rs:191-202 | the map of the parts between `&`, a leading `?` removed |
| Query.QueryRoundTrip | common/src/http1.rs:191-245 | encoded pairs joined by `&` give exactly the last value of each key |
| Query.QueryExactly | common/src/http1.rs:191-202 | for every query string: a key has the value that the last part naming it gives, keys without `=` have the empty value, empty parts give nothing, and nothing else is in the map |
| Ports.ParsePortRanges | common/src/config.rs:247-275 | the list of the items, or nothing when one item is wrong |
| Ports.ItemExactly | common/src/config.rs:253-273 | an item is accepted exactly when it is a port number, or two in ascending order with a dash between, white space aside |
| Ports.ParseExactly | common/src/config.rs:247-275 | for every text: white space gives the empty list, and otherwise it must be such items with commas between, whose list is returned |
| Ports.PrintedItems | common/src/config.rs:147-156 | each range is printed as one item, a single port without a dash |
| Ports.AllowedExactly | common/src/config.rs:306-308 | a port is allowed by the lists with a range that holds it, and by the empty one |
| Ports.ParseFormat | common/src/config.rs:247-283 | parsing a printed list gives the list back, for every list of ordered ranges |
| Ports.NormalForm | common/src/config.rs:247-308 | printing after parsing is idempotent and keeps which ports are allowed |
| Numbers.ParseDigits | common/src/config.rs:256-260 | decimal printing is read back up to the bound of the type |
| Numbers.ParseUintExactly | common/src/config.rs:256-260 | a number is read exactly from its own digits, with or without a plus sign and leading zeros, and only up to the bound |
| Punch.PunchBus.Request | client/src/p2p.rs:236-254 | registers a waiter, and takes it away again when sending fails |
| Punch.PunchBus.Deliver | client/src/p2p.rs:257-264 | hands the response to the waiter of its id, which is then gone |
| Punch.PunchBus.Clear | client/src/p2p.rs:267-269 | drops every waiter |
| Punch.PunchBus.GiveUp | client/src/p2p.rs:409-411 | a timeout leaves the waiter |
| Punch.StepInv | client/src/p2p.rs:236-269 | the waiters are exactly the channels still open, each under its own id |
| Punch.EachToItsOwn | client/src/p2p.rs:207-269 | over every run, sharing the table changes nothing for any request: it sees what it would see alone |
| Punch.OneAnswer | client/src/p2p.rs:257-264 | an answer bears the id of its request and is the only one it ever gets |
| Punch.TooLate | client/src/p2p.rs:257-264 | over every run, a request that has given up waiting is never answered |
| Punch.WaitersOutstanding | client/src/p2p.rs:236-269 | after every run the waiters are the ids whose wait nothing has ended |
| Punch.WaitersExactIff | client/src/p2p.rs:236-269 | the exact condition over every run: the waiters are at all times the requests sent and neither answered nor cleared, if and only if every request that cannot be sent finds no waiter under its id |
| Punch.WaitersExactly | client/src/p2p.rs:236-269 | with unique ids that condition holds, so the waiters are the requests sent and neither answered nor cleared |
| Punch.RepeatedIdLosesTheFirst | client/src/p2p.rs:241-252 | a run in which it does not: a repeated id that cannot be sent loses the first waiter |
| Punch.AnswerArrives | client/src/p2p.rs:408-412 | with unique ids, the first response to a request still waited for reaches it |
| Health.Monitor.constructor | client/src/health.rs:41-79 | exactly the proxies with a health check are seeded, as healthy |
| Health.Monitor.IsHealthy | client/src/health.rs:82-84 | unknown names are healthy |
| Health.Monitor.Record | client/src/health.rs:87-99 | one probe's effect on the table |
| Health.SeededHealth | client/src/health.rs:41-99 | with one threshold for the name, after any interleaved history a seeded proxy is healthy exactly while its trailing failures are below it, the saturating counter notwithstanding |
| Health.TrailingExactly | client/src/health.rs:87-99 | what counts: the probes of that proxy since its last success, those of others aside |
| Health.SeededHealthByProbes | client/src/health.rs:41-99 | for every history, thresholds that differ included: healthy exactly when no failure since the last success has reached the threshold of its own probe |
| Health.UnseededHealth | client/src/health.rs:87-99 | what the seed is for: without it the exact condition is another |
| Health.SeedMatters | client/src/health.rs:41-99 | exactly when the seed makes a difference |

## Left out

- Sockets, TLS, timers, task scheduling, locks and lock poisoning, logging: what a read, a send or a timeout
  yields is an input of the methods. Commands are handled one at a time, as the session loop does.
- `validate_remote_proxy`, the JSON and TOML forms, SHA-512: parameters.
- Ed25519.EverySignatureVerifies: associativity of the curve addition, the order of the base point and the primality
  of 2^255 - 19 are hypotheses.
- GoMatch.AlignedIff: patterns with a backslash are not covered. Which of them agree depends on later elements when
  the first escape is a doubled backslash (`[\\a]` agrees, `EscapesCanAgree`), and equality of two patterns' languages
  has no such simple form; `ReadAlike` is exact for them, and `ApartIf` covers the rest.
- Lossy UTF-8 conversion: HTTP text has one character for each byte, and SOCKS5 names are compared as bytes.
- The text form of a SOCKS5 target and the split of its user info at the first colon: the two ends are
  given parsed values.
- File modes, access control lists, and syncing in the store; paths are single names, whether the store file can be
  read and whether its directory can be created is one input bit each.
- The Rust `Io::line` reader, the HTTP and static-file plugins, URL parsing and the HTTP CONNECT side.
- Over-long or truncated input of `read_request`: `RequestText.ReceivedExactly` says when reading stops, for every
  stream, and `Http1.ReadRequest` what is parsed then; `RequestText.RequestRead` promises the parts for whole requests
  within the limit whose lines hold no lone CR or LF, with what follows arriving in later reads.
- `strip_user_prefix` is modelled by its code; its use outside `remove_proxy` is not.
- Socks5Impl.Stream.ReadExact: reading past the end of the input fails at once; that a short read first waits
  is modelled in `Socks5`, where the streams are cut into fragments.
- Punch.PunchBus.Request: the oneshot channels are a list of channel states in place of shared heap cells.
- Health.Monitor.constructor: the probe tasks it spawns are not started; their records are the histories.
- Hole punching itself, STUN, transports, the server, wire frames, virtual networks and configuration defaults.

# Validator combinators of the riff CLI, in Dafny

This project models the validator-combinator engine of the riff command-line tool
(`cmd/commands/cobra.go`). It has three parts:

- **Positional-argument validators.** `ArgValidationConjunction` runs validators in
  order and stops at the first failure. `AtPosition` applies a one-argument validator
  to `args[i]`. `KubernetesValidation` and `ValidName` turn a rule checker (a string
  to its list of violations) into a validator.
- **Flag-set validators.** `FlagsValidationConjunction` and the adapter
  `FlagsValidatorAsCobraRunE`. `FlagsDependency` runs its delegate only when a guard
  flag was set. `AtLeastOneOf` and `AtMostOneOf` look at which of the named flags
  the user set.
- **The broadcast string value.** `BroadcastStringValue` and `broadcastStringValue`
  write one string into several caller-owned string variables. This happens once at
  construction and again on every `Set`.

How the Go constructs are represented:

- A verdict is `Outcome = Ok | Err(msg) | Fatal(cause)`. `Ok` is a nil error and
  `Err` is a returned error with its message. `Fatal` is a Go panic. The panics are a
  flag name that is not declared, an index outside the argument slice, and a
  broadcast over no pointers. `Fatal` is kept separate from `Err`, so a wiring defect
  is never mistaken for a validation failure.
- A command is `Command(flags)`, a map from each declared flag name to its `Changed`
  bit. `cmd.Flag(name) == nil` is `name !in flags`.
- Validators are Dafny function values. Each combinator is a function that returns a
  lambda, as the Go code returns a closure.
- Every closure that loops has two forms. One is a pure recursive function that the
  lambda calls (`ConjoinArgs`, `ConjoinFlags`, `ScanAtLeast`, `TallyUpTo`). The
  other is a method with the Go loop as written (`CheckArgs`, `CheckFlags`,
  `CheckAtLeastOneOf`, `CheckAtMostOneOf`). Each method is proved to return the same
  verdict as the function.
- The conjunction methods also return `invoked`, the number of validators they
  called. This states that no validator after the first failing one is run.
- `strings.Join` is `Joins.Join`, with lemmas that place every part in the joined
  string.
- A Go `*string` is a `Cell` object with one mutable field. The broadcast value holds
  a `seq<Cell>`, and its methods write through it under a `modifies` clause.
  Two pointers may name the same cell; no proof assumes that they are distinct.

Behaviours of the code that the model keeps:

- `AtLeastOneOf` stops at the first set flag. A name after that point is never looked
  up, so it cannot panic even if it is undeclared. An undeclared name met before any
  set flag panics.
- `AtLeastOneOf` with no names always fails, with the message
  `at least one of -- must be set`.
- `AtMostOneOf` looks up every name. It counts positions, not distinct flags: a set
  flag named twice in the list counts twice and makes the validator fail.
- Both messages read `must be set`, the at-most one included.
- `Set` never fails when every destination pointer is non-nil.
- `String()` reads only the first destination. The model proves it equals every
  destination only while they agree (`Synced`). A write to another destination that
  bypasses the broadcast makes them disagree.

## Model

| member | source | states |
|---|---|---|
| `ArgValidators.ConjoinArgs` | cmd/commands/cobra.go:31-41 | The conjunction passes iff every validator passes, so the empty conjunction passes. |
| `ArgValidators.ConjoinArgsFirstFailure` | cmd/commands/cobra.go:33-37 | When validator k is the first that does not pass, the conjunction's verdict is exactly validator k's, whatever follows it. |
| `ArgValidators.CheckArgs` | cmd/commands/cobra.go:32-40 | The early-return loop returns the conjunction's verdict. It calls exactly the validators up to and including the first one that fails, and all of them when none fails. |
| `ArgValidators.ConjoinArgsAppend` | cmd/commands/cobra.go:31-41 | Validators appended after a failing list never change its verdict. After a passing list, the verdict is that of the appended list. |
| `ArgValidators.AtPositionVerdict` | cmd/commands/cobra.go:46-52 | For an index inside the slice, the verdict is the validator's on `args[i]`. Outside it, negative indices included, the result is the index panic carrying the index and the length, since the count is not checked. |
| `ArgValidators.AtPositionIgnoresOtherArgs` | cmd/commands/cobra.go:48-51 | Rewriting any position other than `i` leaves the verdict unchanged. |
| `ArgValidators.KubernetesValidationVerdict` | cmd/commands/cobra.go:55-64 | When the checker reports violations, the error message is all of them joined with `", "`. Each violation sits in its place, after those before it and before those after it. |
| `ArgValidators.KubernetesValidationPasses` | cmd/commands/cobra.go:56-63 | The argument passes iff the checker reports no violation. It never panics. |
| `ArgValidators.ValidNameVerdict` | cmd/commands/cobra.go:66-68 | A name passes iff the DNS-1123 subdomain checker reports nothing. Otherwise the error is the checker's messages joined with `", "`, each violation in its place between its neighbours. |
| `Joins.JoinSplit` | cmd/commands/cobra.go:59 | A joined string is: the parts before k joined, a separator, part k, a separator, and the parts after k joined. The separators are present only where neighbours exist. |
| `Joins.PrefixedJoin` | cmd/commands/cobra.go:127 | For a non-empty list, a prefix written once in front and again after every separator equals the prefix put on every part, joined with the bare separator. With `--` and `", "` this is the flag list in the messages. |
| `FlagValidators.AsCobraRunEIgnoresArgs` | cmd/commands/cobra.go:78-82 | The hook's verdict is the flags validator's verdict, whatever the positional arguments. |
| `FlagValidators.ConjoinFlags` | cmd/commands/cobra.go:85-95 | The conjunction passes iff every validator passes, so the empty conjunction passes. |
| `FlagValidators.ConjoinFlagsFirstFailure` | cmd/commands/cobra.go:87-91 | When validator k is the first that does not pass, the conjunction's verdict is exactly validator k's, whatever follows it. |
| `FlagValidators.CheckFlags` | cmd/commands/cobra.go:86-94 | The early-return loop returns the conjunction's verdict. It calls exactly the validators up to and including the first one that fails. |
| `FlagValidators.ConjoinFlagsAppend` | cmd/commands/cobra.go:85-95 | Validators appended after a failing list never change its verdict. After a passing list, the verdict is that of the appended list. |
| `FlagValidators.FlagsDependencyVerdict` | cmd/commands/cobra.go:99-113 | An undeclared guard panics. A declared, unset guard passes whatever the delegate is, even one that always fails. A set guard gives exactly the delegate's verdict. |
| `FlagValidators.ScanAtLeast` | cmd/commands/cobra.go:118-126 | The scan stops at the first name that is set or undeclared, and every name before it is declared and unset. It reaches the end only when every name is declared and unset. |
| `FlagValidators.CheckAtLeastOneOf` | cmd/commands/cobra.go:116-129 | The early-return loop returns the verdict of `AtLeastOneOf`. |
| `FlagValidators.AtLeastOneOfVerdict` | cmd/commands/cobra.go:116-129 | It passes iff some name is set and every name before it is declared. It panics iff some name is undeclared and every name before it is declared and unset; that first such name is reported. It fails iff every name is declared and unset, and then with the exact message. |
| `FlagValidators.AtLeastOneOfDeclared` | cmd/commands/cobra.go:116-129 | When every name is declared, it passes iff at least one named flag is set. Otherwise it fails with the listing message. |
| `FlagValidators.AtLeastOneOfStopsAtSetFlag` | cmd/commands/cobra.go:118-125 | Appending names to a passing list, even undeclared ones, keeps it passing. Names after a set flag are never looked up. |
| `FlagValidators.AtLeastOneOfNoNames` | cmd/commands/cobra.go:127 | With no names it always fails, with `at least one of -- must be set`. |
| `FlagValidators.DashedListNamesEach` | cmd/commands/cobra.go:127 | The flag list of both messages is every name behind `--`, joined with `", "`. Each `--name` occurs in it. |
| `FlagValidators.AtLeastOneOfMessageNamesEach` | cmd/commands/cobra.go:127 | The message is `at least one of ` + every name behind `--` joined with `", "` + ` must be set`. Each `--name` occurs in it. |
| `FlagValidators.TallyUpTo` | cmd/commands/cobra.go:134-143 | After a prefix of the names, the loop has either met a first undeclared name, with every name before it declared, or has declared names only. Its count never exceeds the prefix length. |
| `FlagValidators.TallyCountsSetFlags` | cmd/commands/cobra.go:134-143 | The counter is at least 1 iff some position holds a set flag. It is at least 2 iff two distinct positions hold set flags. |
| `FlagValidators.CheckAtMostOneOf` | cmd/commands/cobra.go:132-150 | The counting loop returns the verdict of `AtMostOneOf`. |
| `FlagValidators.AtMostOneOfVerdict` | cmd/commands/cobra.go:132-150 | It panics iff some name is undeclared, however many flags are set, and it reports the first undeclared name. With every name declared, it fails iff two positions hold set flags, and then with the exact message. |
| `FlagValidators.AtMostOneOfMessageNamesEach` | cmd/commands/cobra.go:145 | The message is `at most one of ` + every name behind `--` joined with `", "` + ` must be set`. Each `--name` occurs in it. |
| `Broadcast.BroadcastValue.Set` | cmd/commands/cobra.go:154-159 | Every destination holds `v` afterwards, aliased ones included, and the call returns nil. The new contents depend only on `v`, and nothing outside the destinations changes. |
| `Broadcast.OverwriteIdempotent` | cmd/commands/cobra.go:154-159 | Broadcasting the same value twice leaves what broadcasting it once left. |
| `Broadcast.BroadcastValue.String` | cmd/commands/cobra.go:161-163 | While the destinations agree, the textual form equals every destination. |
| `Broadcast.BroadcastValue.Type` | cmd/commands/cobra.go:165-167 | The kind is `"string"`. |
| `Broadcast.BroadcastValue.constructor` | cmd/commands/cobra.go:176 | Converting a non-empty pointer list keeps exactly those destinations and writes nothing. |
| `Broadcast.BroadcastStringValue` | cmd/commands/cobra.go:169-177 | An empty pointer list panics. Otherwise every destination holds `value` afterwards, and the result is a fresh value over exactly those destinations. Its textual form is `value`, and nothing outside the destinations changes. |
| `BroadcastClient.ThreeDestinations` | cmd/commands/cobra.go:152-177 | For three destinations, two of them the same variable, every destination reads back `"x"` after construction and `"y"` after `Set("y")`. |

## Left out

- The cobra and pflag framework is not modelled: command dispatch, flag parsing and
  registration, and how `Changed` gets set. A command is reduced to its flag lookup,
  so local and inherited flags are not told apart.
- Panic messages and `cmd.Use` are left out. The model keeps the panic and its cause:
  the missing flag name, or the index and the slice length.
- The rules of `validation.IsDNS1123Subdomain` are left out. They live in the
  Kubernetes apimachinery library, which is not part of this model, so `ValidName`
  takes the checker as a parameter.
- `pkg/tool/function.go` (`CreateFunction`) is left out. It only builds a Knative
  Service object and hands it to the cluster client.
- Go `error` values are reduced to their message text. `fmt.Errorf("%s", …)` is
  modelled as the joined string itself.
- Validators are modelled as deterministic functions of the command and the
  arguments. A Go closure with side effects of its own is not modelled.
- Nil pointers are not modelled: a `Cell` is never null. In Go a nil pointer among
  the destinations panics on the write, after the destinations before it were written.
- `Broadcast.BroadcastValue.Set`: "never fails" and "every destination holds `v`"
  hold only for non-nil destination pointers, since a nil one panics part-way.
- `Broadcast.BroadcastStringValue`: "every destination holds `value`" holds only for
  non-nil pointers, since a nil one panics part-way through the writes.
- `Broadcast.BroadcastValue.constructor`: the destinations are fixed when the value is
  built. In Go the value shares the caller's slice, so a caller that later stores
  another pointer in that slice redirects `Set` and `String()`. The model assumes the
  caller does not rebind the slice.
- `ArgValidators.ConjoinArgs`, `FlagValidators.ConjoinFlags` and
  `FlagValidators.FlagsDependency` assume non-nil validators and delegates. Dafny
  function values are total; in Go calling a nil one panics.
- Nothing prevents writes to a destination that bypass the broadcast. `String()` then
  shows the first destination only. The model states this through `Synced` and does
  not enforce agreement as an invariant.

Two behaviours of the code are easy to misread. `AtLeastOneOf` looks names up only
until it meets a set flag. `AtMostOneOf` counts positions, so a repeated name counts
twice, and its message says `must be set`.

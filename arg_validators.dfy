/** Validators over the positional arguments of a command (the "Args related functions"). */
module ArgValidators {
  import opened Verdicts
  import opened Joins

  /** cobra.PositionalArgs: judges the whole argument list of a command. */
  type PositionalArgs = (Command, seq<string>) -> Outcome

  /** PositionalArg: judges one argument string on its own. */
  type PositionalArg = (Command, string) -> Outcome

  // ------------------------------------------------------------------ conjunction

  /** The validator that runs every given validator in turn; all must pass. */
  function ArgValidationConjunction(validators: seq<PositionalArgs>): PositionalArgs
  {
    (cmd: Command, args: seq<string>) => ConjoinArgs(validators, cmd, args, 0)
  }

  /**
   * The verdict of the conjunction over the validators from position `from` on: nil
   * exactly when every one of them passes.
   */
  function ConjoinArgs(validators: seq<PositionalArgs>, cmd: Command, args: seq<string>, from: nat): (r: Outcome)
    requires from <= |validators|
    ensures r.Ok? <==> forall k :: from <= k < |validators| ==> validators[k](cmd, args).Ok?
    decreases |validators| - from
  {
    if from == |validators| then Ok
    else
      var err := validators[from](cmd, args);
      if !err.Ok? then err else ConjoinArgs(validators, cmd, args, from + 1)
  }

  /**
   * When validator k is the first from position `from` on that does not pass, the
   * conjunction's verdict is exactly validator k's.
   */
  lemma {:induction false} ConjoinArgsFirstFailure(validators: seq<PositionalArgs>, cmd: Command, args: seq<string>, from: nat, k: nat)
    requires from <= k < |validators|
    requires !validators[k](cmd, args).Ok?
    requires forall j :: from <= j < k ==> validators[j](cmd, args).Ok?
    ensures ConjoinArgs(validators, cmd, args, from) == validators[k](cmd, args)
    decreases k - from
  {
    if from < k {
      ConjoinArgsFirstFailure(validators, cmd, args, from + 1, k);
    }
  }

  /**
   * The closure's loop as written: stops at the first validator that does not pass.
   * `invoked` is how many validators were called, so none after the failing one ran.
   */
  method CheckArgs(validators: seq<PositionalArgs>, cmd: Command, args: seq<string>) returns (err: Outcome, invoked: nat)
    ensures err == ArgValidationConjunction(validators)(cmd, args)
    ensures invoked <= |validators|
    ensures err.Ok? ==> invoked == |validators|
    ensures !err.Ok? ==> 0 < invoked && err == validators[invoked - 1](cmd, args)
    ensures !err.Ok? ==> forall j :: 0 <= j < invoked - 1 ==> validators[j](cmd, args).Ok?
  {
    var i := 0;
    while i < |validators|
      invariant 0 <= i <= |validators|
      invariant forall j :: 0 <= j < i ==> validators[j](cmd, args).Ok?
      invariant ConjoinArgs(validators, cmd, args, 0) == ConjoinArgs(validators, cmd, args, i)
    {
      var e := validators[i](cmd, args);
      if !e.Ok? {
        return e, i + 1;
      }
      i := i + 1;
    }
    return Ok, i;
  }

  /** Running a list placed after `prefix` from position |prefix| + m is running it from m. */
  lemma {:induction false} ConjoinArgsShift(prefix: seq<PositionalArgs>, validators: seq<PositionalArgs>, cmd: Command, args: seq<string>, m: nat)
    requires m <= |validators|
    ensures ConjoinArgs(prefix + validators, cmd, args, |prefix| + m) == ConjoinArgs(validators, cmd, args, m)
    decreases |validators| - m
  {
    var all := prefix + validators;
    if m < |validators| {
      assert all[|prefix| + m] == validators[m];
      if validators[m](cmd, args).Ok? {
        ConjoinArgsShift(prefix, validators, cmd, args, m + 1);
      }
    }
  }

  /** The append law of ConjoinArgsAppend, stated for the validators of `first` from position `from` on. */
  lemma {:induction false} ConjoinArgsAppendFrom(first: seq<PositionalArgs>, later: seq<PositionalArgs>, cmd: Command, args: seq<string>, from: nat)
    requires from <= |first|
    ensures ConjoinArgs(first + later, cmd, args, from) ==
      if ConjoinArgs(first, cmd, args, from).Ok? then ConjoinArgs(later, cmd, args, 0)
      else ConjoinArgs(first, cmd, args, from)
    decreases |first| - from
  {
    if from == |first| {
      ConjoinArgsShift(first, later, cmd, args, 0);
    } else if first[from](cmd, args).Ok? {
      assert (first + later)[from] == first[from];
      ConjoinArgsAppendFrom(first, later, cmd, args, from + 1);
    } else {
      assert (first + later)[from] == first[from];
    }
  }

  /**
   * Appending validators after a list that already fails changes nothing (they never
   * run); after a list that passes, the verdict is the appended list's.
   */
  lemma ConjoinArgsAppend(first: seq<PositionalArgs>, later: seq<PositionalArgs>, cmd: Command, args: seq<string>)
    ensures ArgValidationConjunction(first + later)(cmd, args) ==
      if ArgValidationConjunction(first)(cmd, args).Ok? then ArgValidationConjunction(later)(cmd, args)
      else ArgValidationConjunction(first)(cmd, args)
  {
    ConjoinArgsAppendFrom(first, later, cmd, args, 0);
  }

  // ------------------------------------------------------------------ position

  /**
   * Applies a single-argument validator to args[i]. The argument count is not checked:
   * an index outside the slice is Go's index-out-of-range panic.
   */
  function AtPosition(i: int, validator: PositionalArg): PositionalArgs
  {
    (cmd: Command, args: seq<string>) =>
      if 0 <= i < |args| then validator(cmd, args[i])
      else Fatal(IndexOutOfRange(i, |args|))
  }

  /** Inside the slice the verdict is the validator's on that one argument; outside it panics. */
  lemma AtPositionVerdict(i: int, validator: PositionalArg, cmd: Command, args: seq<string>)
    ensures 0 <= i < |args| ==> AtPosition(i, validator)(cmd, args) == validator(cmd, args[i])
    ensures !(0 <= i < |args|) ==> AtPosition(i, validator)(cmd, args) == Fatal(IndexOutOfRange(i, |args|))
  {
  }

  /** Rewriting any other position never changes the verdict. */
  lemma AtPositionIgnoresOtherArgs(i: int, validator: PositionalArg, cmd: Command, args: seq<string>, j: nat, arg: string)
    requires j < |args| && j != i
    ensures AtPosition(i, validator)(cmd, args[j := arg]) == AtPosition(i, validator)(cmd, args)
  {
  }

  // ------------------------------------------------------------------ naming rules

  /**
   * Turns a Kubernetes-style rule checker (a string to its list of violations) into a
   * single-argument validator.
   */
  function KubernetesValidation(k8s: string -> seq<string>): PositionalArg
  {
    (cmd: Command, arg: string) =>
      var msgs := k8s(arg);
      if |msgs| > 0 then Err(Join(msgs, ", ")) else Ok
  }

  /**
   * The argument passes exactly when the checker reports no violation; otherwise the
   * error carries every violation, in the checker's order, separated by ", ".
   */
  lemma KubernetesValidationVerdict(k8s: string -> seq<string>, cmd: Command, arg: string, k: nat)
    requires k < |k8s(arg)|
    ensures KubernetesValidation(k8s)(cmd, arg) == Err(Join(k8s(arg), ", "))
    ensures KubernetesValidation(k8s)(cmd, arg).msg ==
      Join(k8s(arg)[..k], ", ") + (if 0 < k then ", " else "") + k8s(arg)[k] +
      (if k + 1 < |k8s(arg)| then ", " else "") + Join(k8s(arg)[k + 1..], ", ")
  {
    JoinSplit(k8s(arg), ", ", k);
  }

  /** A checker that finds nothing to object to makes the validator pass. */
  lemma KubernetesValidationPasses(k8s: string -> seq<string>, cmd: Command, arg: string)
    ensures KubernetesValidation(k8s)(cmd, arg).Ok? <==> k8s(arg) == []
    ensures KubernetesValidation(k8s)(cmd, arg).Ok? || KubernetesValidation(k8s)(cmd, arg).Err?
  {
  }

  /**
   * The resource-name validator. The DNS-1123 subdomain checker of the Kubernetes
   * apimachinery library (host-name rules of section 2.1 of RFC 1123) is not part of
   * this model, so it is passed in.
   */
  function ValidName(isDNS1123Subdomain: string -> seq<string>): PositionalArg
  {
    KubernetesValidation(isDNS1123Subdomain)
  }

  /**
   * A name is accepted exactly when the subdomain checker reports nothing; otherwise
   * violation k of the checker sits in the message between its neighbours.
   */
  lemma ValidNameVerdict(isDNS1123Subdomain: string -> seq<string>, cmd: Command, name: string, k: nat)
    ensures ValidName(isDNS1123Subdomain)(cmd, name) ==
      if isDNS1123Subdomain(name) == [] then Ok else Err(Join(isDNS1123Subdomain(name), ", "))
    ensures k < |isDNS1123Subdomain(name)| ==>
      ValidName(isDNS1123Subdomain)(cmd, name).msg ==
        Join(isDNS1123Subdomain(name)[..k], ", ") + (if 0 < k then ", " else "") +
        isDNS1123Subdomain(name)[k] +
        (if k + 1 < |isDNS1123Subdomain(name)| then ", " else "") +
        Join(isDNS1123Subdomain(name)[k + 1..], ", ")
  {
    if k < |isDNS1123Subdomain(name)| {
      KubernetesValidationVerdict(isDNS1123Subdomain, cmd, name, k);
    }
  }
}

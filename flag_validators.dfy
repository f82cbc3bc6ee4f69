/** Validators over the flags of a command (the "Flags related functions"). */
module FlagValidators {
  import opened Verdicts
  import opened Joins

  /** FlagsValidator: judges the flag set of a command. */
  type FlagsValidator = Command -> Outcome

  /** CobraEFunction: the shape cobra expects for PreRunE and friends. */
  type CobraEFunction = (Command, seq<string>) -> Outcome

  /** True when `name` is a declared flag that the user did not set. */
  predicate DeclaredUnset(cmd: Command, name: string)
  {
    name in cmd.flags && !cmd.flags[name]
  }

  /** True when `name` is a declared flag that the user set. */
  predicate DeclaredSet(cmd: Command, name: string)
  {
    name in cmd.flags && cmd.flags[name]
  }

  // ------------------------------------------------------------------ adapter

  /** Lets a flags validator stand as a pre-run hook; the positional arguments are ignored. */
  function FlagsValidatorAsCobraRunE(validator: FlagsValidator): CobraEFunction
  {
    (cmd: Command, args: seq<string>) => validator(cmd)
  }

  /** The hook's verdict is the validator's, whatever the arguments. */
  lemma AsCobraRunEIgnoresArgs(validator: FlagsValidator, cmd: Command, args: seq<string>, otherArgs: seq<string>)
    ensures FlagsValidatorAsCobraRunE(validator)(cmd, args) == validator(cmd)
    ensures FlagsValidatorAsCobraRunE(validator)(cmd, args) == FlagsValidatorAsCobraRunE(validator)(cmd, otherArgs)
  {
  }

  // ------------------------------------------------------------------ conjunction

  /** The validator that runs every given validator in turn; all must pass. */
  function FlagsValidationConjunction(validators: seq<FlagsValidator>): FlagsValidator
  {
    (cmd: Command) => ConjoinFlags(validators, cmd, 0)
  }

  /**
   * The verdict of the conjunction over the validators from position `from` on: nil
   * exactly when every one of them passes.
   */
  function ConjoinFlags(validators: seq<FlagsValidator>, cmd: Command, from: nat): (r: Outcome)
    requires from <= |validators|
    ensures r.Ok? <==> forall k :: from <= k < |validators| ==> validators[k](cmd).Ok?
    decreases |validators| - from
  {
    if from == |validators| then Ok
    else
      var err := validators[from](cmd);
      if !err.Ok? then err else ConjoinFlags(validators, cmd, from + 1)
  }

  /**
   * When validator k is the first from position `from` on that does not pass, the
   * conjunction's verdict is exactly validator k's.
   */
  lemma {:induction false} ConjoinFlagsFirstFailure(validators: seq<FlagsValidator>, cmd: Command, from: nat, k: nat)
    requires from <= k < |validators|
    requires !validators[k](cmd).Ok?
    requires forall j :: from <= j < k ==> validators[j](cmd).Ok?
    ensures ConjoinFlags(validators, cmd, from) == validators[k](cmd)
    decreases k - from
  {
    if from < k {
      ConjoinFlagsFirstFailure(validators, cmd, from + 1, k);
    }
  }

  /**
   * The closure's loop as written: stops at the first validator that does not pass.
   * `invoked` is how many validators were called, so none after the failing one ran.
   */
  method CheckFlags(validators: seq<FlagsValidator>, cmd: Command) returns (err: Outcome, invoked: nat)
    ensures err == FlagsValidationConjunction(validators)(cmd)
    ensures invoked <= |validators|
    ensures err.Ok? ==> invoked == |validators|
    ensures !err.Ok? ==> 0 < invoked && err == validators[invoked - 1](cmd)
    ensures !err.Ok? ==> forall j :: 0 <= j < invoked - 1 ==> validators[j](cmd).Ok?
  {
    var i := 0;
    while i < |validators|
      invariant 0 <= i <= |validators|
      invariant forall j :: 0 <= j < i ==> validators[j](cmd).Ok?
      invariant ConjoinFlags(validators, cmd, 0) == ConjoinFlags(validators, cmd, i)
    {
      var e := validators[i](cmd);
      if !e.Ok? {
        return e, i + 1;
      }
      i := i + 1;
    }
    return Ok, i;
  }

  /** Running a list placed after `prefix` from position |prefix| + m is running it from m. */
  lemma {:induction false} ConjoinFlagsShift(prefix: seq<FlagsValidator>, validators: seq<FlagsValidator>, cmd: Command, m: nat)
    requires m <= |validators|
    ensures ConjoinFlags(prefix + validators, cmd, |prefix| + m) == ConjoinFlags(validators, cmd, m)
    decreases |validators| - m
  {
    var all := prefix + validators;
    if m < |validators| {
      assert all[|prefix| + m] == validators[m];
      if validators[m](cmd).Ok? {
        ConjoinFlagsShift(prefix, validators, cmd, m + 1);
      }
    }
  }

  /** The append law of ConjoinFlagsAppend, stated for the validators of `first` from position `from` on. */
  lemma {:induction false} ConjoinFlagsAppendFrom(first: seq<FlagsValidator>, later: seq<FlagsValidator>, cmd: Command, from: nat)
    requires from <= |first|
    ensures ConjoinFlags(first + later, cmd, from) ==
      if ConjoinFlags(first, cmd, from).Ok? then ConjoinFlags(later, cmd, 0)
      else ConjoinFlags(first, cmd, from)
    decreases |first| - from
  {
    if from == |first| {
      ConjoinFlagsShift(first, later, cmd, 0);
    } else if first[from](cmd).Ok? {
      assert (first + later)[from] == first[from];
      ConjoinFlagsAppendFrom(first, later, cmd, from + 1);
    } else {
      assert (first + later)[from] == first[from];
    }
  }

  /**
   * Appending validators after a list that already fails changes nothing (they never
   * run); after a list that passes, the verdict is the appended list's.
   */
  lemma ConjoinFlagsAppend(first: seq<FlagsValidator>, later: seq<FlagsValidator>, cmd: Command)
    ensures FlagsValidationConjunction(first + later)(cmd) ==
      if FlagsValidationConjunction(first)(cmd).Ok? then FlagsValidationConjunction(later)(cmd)
      else FlagsValidationConjunction(first)(cmd)
  {
    ConjoinFlagsAppendFrom(first, later, cmd, 0);
  }

  // ------------------------------------------------------------------ dependency

  /**
   * Runs `delegate` only when `flag` was set ("if --foo is set, then --bar must be set
   * as well"). An undeclared `flag` is a wiring panic.
   */
  function FlagsDependency(flag: string, delegate: FlagsValidator): FlagsValidator
  {
    (cmd: Command) =>
      if flag !in cmd.flags then Fatal(MissingFlag(flag))
      else if cmd.flags[flag] then delegate(cmd)
      else Ok
  }

  /**
   * An unset guard passes whatever the delegate would say, even a delegate that always
   * fails; a set guard hands over to the delegate's exact verdict; an undeclared guard
   * panics whatever the delegate would say.
   */
  lemma FlagsDependencyVerdict(flag: string, delegate: FlagsValidator, other: FlagsValidator, cmd: Command)
    ensures DeclaredUnset(cmd, flag) ==>
      FlagsDependency(flag, delegate)(cmd) == FlagsDependency(flag, other)(cmd) == Ok
    ensures DeclaredSet(cmd, flag) ==> FlagsDependency(flag, delegate)(cmd) == delegate(cmd)
    ensures flag !in cmd.flags ==>
      FlagsDependency(flag, delegate)(cmd) == FlagsDependency(flag, other)(cmd) == Fatal(MissingFlag(flag))
  {
  }

  // ------------------------------------------------------------------ at least one

  /** Where the at-least-one scan stopped. */
  datatype Scan = FoundSet(at: nat) | FoundUndeclared(at: nat) | Exhausted

  /**
   * The scan of AtLeastOneOf from position `from` on: it stops at the first name that is
   * set or undeclared, and reaches the end only when every remaining name is declared
   * and unset.
   */
  function ScanAtLeast(flagNames: seq<string>, cmd: Command, from: nat): (r: Scan)
    requires from <= |flagNames|
    ensures r.FoundSet? || r.FoundUndeclared? ==> from <= r.at < |flagNames|
    ensures r.FoundSet? ==> DeclaredSet(cmd, flagNames[r.at])
    ensures r.FoundUndeclared? ==> flagNames[r.at] !in cmd.flags
    ensures r.FoundSet? || r.FoundUndeclared? ==>
      forall j :: from <= j < r.at ==> DeclaredUnset(cmd, flagNames[j])
    ensures r.Exhausted? ==> forall j :: from <= j < |flagNames| ==> DeclaredUnset(cmd, flagNames[j])
    decreases |flagNames| - from
  {
    if from == |flagNames| then Exhausted
    else if flagNames[from] !in cmd.flags then FoundUndeclared(from)
    else if cmd.flags[flagNames[from]] then FoundSet(from)
    else ScanAtLeast(flagNames, cmd, from + 1)
  }

  /** The flag list of both messages: `--` then the names joined with ", --". */
  function DashedList(flagNames: seq<string>): string
  {
    "--" + Join(flagNames, ", --")
  }

  /** The list names every flag, in order, each behind "--", separated by ", ". */
  lemma DashedListNamesEach(flagNames: seq<string>, k: nat) returns (pre: string, post: string)
    requires k < |flagNames|
    ensures DashedList(flagNames) == Join(Prefixed("--", flagNames), ", ")
    ensures DashedList(flagNames) == pre + "--" + flagNames[k] + post
  {
    assert ", --" == ", " + "--";
    PrefixedJoin("--", flagNames, ", ");
    pre, post := JoinMentions(Prefixed("--", flagNames), ", ", k);
  }

  /** The error message of AtLeastOneOf: "at least one of --%s must be set" over the names. */
  function AtLeastOneOfMessage(flagNames: seq<string>): string
  {
    "at least one of " + DashedList(flagNames) + " must be set"
  }

  /** Asserts that at least one of the named flags is set. */
  function AtLeastOneOf(flagNames: seq<string>): FlagsValidator
  {
    (cmd: Command) =>
      match ScanAtLeast(flagNames, cmd, 0)
      case FoundSet(_) => Ok
      case FoundUndeclared(k) => Fatal(MissingFlag(flagNames[k]))
      case Exhausted => Err(AtLeastOneOfMessage(flagNames))
  }

  /** The closure's loop as written, returning as soon as a set flag is met. */
  method CheckAtLeastOneOf(flagNames: seq<string>, cmd: Command) returns (err: Outcome)
    ensures err == AtLeastOneOf(flagNames)(cmd)
  {
    for i := 0 to |flagNames|
      invariant ScanAtLeast(flagNames, cmd, 0) == ScanAtLeast(flagNames, cmd, i)
    {
      var f := flagNames[i];
      if f !in cmd.flags {
        return Fatal(MissingFlag(f));
      }
      if cmd.flags[f] {
        return Ok;
      }
    }
    return Err(AtLeastOneOfMessage(flagNames));
  }

  /**
   * The verdict of AtLeastOneOf, stated without the scan: it passes exactly when some
   * name is set and every name before it is declared; it panics exactly when some name
   * is undeclared and every name before it is declared and unset (the first such name
   * is reported); and it fails exactly when every name is declared and unset.
   */
  lemma AtLeastOneOfVerdict(flagNames: seq<string>, cmd: Command)
    ensures AtLeastOneOf(flagNames)(cmd).Ok? <==>
      exists k :: 0 <= k < |flagNames| && DeclaredSet(cmd, flagNames[k]) &&
        forall j :: 0 <= j < k ==> flagNames[j] in cmd.flags
    ensures AtLeastOneOf(flagNames)(cmd).Fatal? <==>
      exists k :: 0 <= k < |flagNames| && flagNames[k] !in cmd.flags &&
        forall j :: 0 <= j < k ==> DeclaredUnset(cmd, flagNames[j])
    ensures forall k | 0 <= k < |flagNames| && flagNames[k] !in cmd.flags &&
        (forall j :: 0 <= j < k ==> DeclaredUnset(cmd, flagNames[j])) ::
      AtLeastOneOf(flagNames)(cmd) == Fatal(MissingFlag(flagNames[k]))
    ensures AtLeastOneOf(flagNames)(cmd).Err? <==>
      forall j :: 0 <= j < |flagNames| ==> DeclaredUnset(cmd, flagNames[j])
    ensures AtLeastOneOf(flagNames)(cmd).Err? ==>
      AtLeastOneOf(flagNames)(cmd).msg == AtLeastOneOfMessage(flagNames)
  {
    var r := ScanAtLeast(flagNames, cmd, 0);
    forall k | 0 <= k < |flagNames| && flagNames[k] !in cmd.flags &&
        (forall j :: 0 <= j < k ==> DeclaredUnset(cmd, flagNames[j]))
      ensures r == FoundUndeclared(k)
    {
    }
  }

  /** With every name declared, AtLeastOneOf passes exactly when some name is set. */
  lemma AtLeastOneOfDeclared(flagNames: seq<string>, cmd: Command)
    requires forall j :: 0 <= j < |flagNames| ==> flagNames[j] in cmd.flags
    ensures AtLeastOneOf(flagNames)(cmd).Ok? <==> exists k :: 0 <= k < |flagNames| && cmd.flags[flagNames[k]]
    ensures !AtLeastOneOf(flagNames)(cmd).Ok? ==> AtLeastOneOf(flagNames)(cmd) == Err(AtLeastOneOfMessage(flagNames))
  {
    AtLeastOneOfVerdict(flagNames, cmd);
  }

  /**
   * Once a set flag has been met, names after it are never looked up: appending names,
   * even undeclared ones, keeps a passing AtLeastOneOf passing.
   */
  lemma AtLeastOneOfStopsAtSetFlag(flagNames: seq<string>, more: seq<string>, cmd: Command)
    requires AtLeastOneOf(flagNames)(cmd).Ok?
    ensures AtLeastOneOf(flagNames + more)(cmd).Ok?
  {
    AtLeastOneOfVerdict(flagNames, cmd);
    var k :| 0 <= k < |flagNames| && DeclaredSet(cmd, flagNames[k]) &&
      forall j :: 0 <= j < k ==> flagNames[j] in cmd.flags;
    assert (flagNames + more)[k] == flagNames[k];
    assert forall j :: 0 <= j < k ==> (flagNames + more)[j] == flagNames[j];
    AtLeastOneOfVerdict(flagNames + more, cmd);
  }

  /** With no names at all, AtLeastOneOf always fails, with a message naming no flag. */
  lemma AtLeastOneOfNoNames(cmd: Command)
    ensures AtLeastOneOf([])(cmd) == Err("at least one of -- must be set")
  {
  }

  /** The message names every flag of the list, each behind "--", separated by ", ". */
  lemma AtLeastOneOfMessageNamesEach(flagNames: seq<string>, k: nat) returns (pre: string, post: string)
    requires k < |flagNames|
    ensures AtLeastOneOfMessage(flagNames) == "at least one of " + Join(Prefixed("--", flagNames), ", ") + " must be set"
    ensures AtLeastOneOfMessage(flagNames) == pre + "--" + flagNames[k] + post
  {
    var p, q := DashedListNamesEach(flagNames, k);
    pre, post := "at least one of " + p, q + " must be set";
  }

  // ------------------------------------------------------------------ at most one

  /** What the at-most-one loop has seen after a prefix of the names. */
  datatype Tally = Counted(count: nat) | Undeclared(at: nat)

  /**
   * The state of AtMostOneOf's loop after the first `upTo` names: the first undeclared
   * name among them, if any, and otherwise how many of them are set.
   */
  function TallyUpTo(flagNames: seq<string>, cmd: Command, upTo: nat): (r: Tally)
    requires upTo <= |flagNames|
    ensures r.Undeclared? ==> r.at < upTo && flagNames[r.at] !in cmd.flags
    ensures r.Undeclared? ==> forall j :: 0 <= j < r.at ==> flagNames[j] in cmd.flags
    ensures r.Counted? ==> forall j :: 0 <= j < upTo ==> flagNames[j] in cmd.flags
    ensures r.Counted? ==> r.count <= upTo
  {
    if upTo == 0 then Counted(0)
    else
      match TallyUpTo(flagNames, cmd, upTo - 1)
      case Undeclared(k) => Undeclared(k)
      case Counted(n) =>
        var f := flagNames[upTo - 1];
        if f !in cmd.flags then Undeclared(upTo - 1)
        else if cmd.flags[f] then Counted(n + 1)
        else Counted(n)
  }

  /** The error message of AtMostOneOf: "at most one of --%s must be set" over the names. */
  function AtMostOneOfMessage(flagNames: seq<string>): string
  {
    "at most one of " + DashedList(flagNames) + " must be set"
  }

  /** Asserts that at most one of the named flags is set. */
  function AtMostOneOf(flagNames: seq<string>): FlagsValidator
  {
    (cmd: Command) =>
      match TallyUpTo(flagNames, cmd, |flagNames|)
      case Undeclared(k) => Fatal(MissingFlag(flagNames[k]))
      case Counted(n) => if n > 1 then Err(AtMostOneOfMessage(flagNames)) else Ok
  }

  /** The closure's loop as written, with its counter. */
  method CheckAtMostOneOf(flagNames: seq<string>, cmd: Command) returns (err: Outcome)
    ensures err == AtMostOneOf(flagNames)(cmd)
  {
    var count := 0;
    for i := 0 to |flagNames|
      invariant TallyUpTo(flagNames, cmd, i) == Counted(count)
    {
      var f := flagNames[i];
      if f !in cmd.flags {
        return Fatal(MissingFlag(f));
      }
      if cmd.flags[f] {
        count := count + 1;
      }
    }
    if count > 1 {
      return Err(AtMostOneOfMessage(flagNames));
    } else {
      return Ok;
    }
  }

  /**
   * The count of the tally, stated without it: at least one of the first `upTo` names
   * is set exactly when the count is at least one, and two positions are set exactly
   * when it is at least two.
   */
  lemma {:induction false} TallyCountsSetFlags(flagNames: seq<string>, cmd: Command, upTo: nat)
    requires upTo <= |flagNames|
    requires TallyUpTo(flagNames, cmd, upTo).Counted?
    ensures TallyUpTo(flagNames, cmd, upTo).count >= 1 <==>
      exists i :: 0 <= i < upTo && cmd.flags[flagNames[i]]
    ensures TallyUpTo(flagNames, cmd, upTo).count >= 2 <==>
      exists i, j :: 0 <= i < j < upTo && cmd.flags[flagNames[i]] && cmd.flags[flagNames[j]]
  {
    if upTo > 0 {
      var m := upTo - 1;
      TallyCountsSetFlags(flagNames, cmd, m);
      var n := TallyUpTo(flagNames, cmd, m).count;
      if cmd.flags[flagNames[m]] {
        if n >= 1 {
          var i :| 0 <= i < m && cmd.flags[flagNames[i]];
          assert 0 <= i < m < upTo && cmd.flags[flagNames[i]] && cmd.flags[flagNames[m]];
        }
      } else {
        if exists i, j :: 0 <= i < j < upTo && cmd.flags[flagNames[i]] && cmd.flags[flagNames[j]] {
          var i, j :| 0 <= i < j < upTo && cmd.flags[flagNames[i]] && cmd.flags[flagNames[j]];
          assert j < m;
        }
      }
    }
  }

  /**
   * The verdict of AtMostOneOf: any undeclared name panics (the first one is reported),
   * however many flags are set; with every name declared it fails exactly when two
   * positions of the list hold set flags, and then with the message listing all names.
   */
  lemma AtMostOneOfVerdict(flagNames: seq<string>, cmd: Command)
    ensures AtMostOneOf(flagNames)(cmd).Fatal? <==> exists k :: 0 <= k < |flagNames| && flagNames[k] !in cmd.flags
    ensures forall k | 0 <= k < |flagNames| && flagNames[k] !in cmd.flags &&
        (forall j :: 0 <= j < k ==> flagNames[j] in cmd.flags) ::
      AtMostOneOf(flagNames)(cmd) == Fatal(MissingFlag(flagNames[k]))
    ensures (forall k :: 0 <= k < |flagNames| ==> flagNames[k] in cmd.flags) ==>
      (AtMostOneOf(flagNames)(cmd).Err? <==>
        exists i, j :: 0 <= i < j < |flagNames| && cmd.flags[flagNames[i]] && cmd.flags[flagNames[j]])
    ensures AtMostOneOf(flagNames)(cmd).Err? ==> AtMostOneOf(flagNames)(cmd).msg == AtMostOneOfMessage(flagNames)
  {
    var t := TallyUpTo(flagNames, cmd, |flagNames|);
    if t.Counted? {
      TallyCountsSetFlags(flagNames, cmd, |flagNames|);
    }
  }

  /** The message names every flag of the list, each behind "--", separated by ", ". */
  lemma AtMostOneOfMessageNamesEach(flagNames: seq<string>, k: nat) returns (pre: string, post: string)
    requires k < |flagNames|
    ensures AtMostOneOfMessage(flagNames) == "at most one of " + Join(Prefixed("--", flagNames), ", ") + " must be set"
    ensures AtMostOneOfMessage(flagNames) == pre + "--" + flagNames[k] + post
  {
    var p, q := DashedListNamesEach(flagNames, k);
    pre, post := "at most one of " + p, q + " must be set";
  }
}

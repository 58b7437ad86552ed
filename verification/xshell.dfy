/** The builder itself: its configuration as the constructor stores it, the
    command line `perform` hands to the argument-list tokenizer, the parsed
    time limit, and `perform` as a whole. */
module XShell {
  import opened Wrappers
  import opened Text
  import Separators
  import EnvVars
  import Supervisor

  /** The exception `perform` ends with before the child is started. */
  datatype Fault = NullPointer

  /** The builder's four configuration fields. Each may hold null: a builder
      read back from an older saved configuration has its fields set without
      the constructor. */
  datatype Builder = Builder(
    commandLine: Option<string>,
    executeFromWorkingDir: Option<bool>,
    regexToKill: Option<string>,
    timeAllocated: Option<string>)

  // ---------------------------------------------------------------------------
  // Constructor

  /** The characters `String.trim` removes: every code up to the space. */
  predicate IsBlank(c: char) {
    c <= ' '
  }

  function TrimStart(s: string): string
    decreases |s|
  {
    if s != [] && IsBlank(s[0]) then TrimStart(s[1..]) else s
  }

  function TrimEnd(s: string): string
    decreases |s|
  {
    if s != [] && IsBlank(s[|s| - 1]) then TrimEnd(s[..|s| - 1]) else s
  }

  /** `String.trim`. */
  function Trim(s: string): string {
    TrimEnd(TrimStart(s))
  }

  /** Jenkins' `Util.fixEmptyAndTrim`: null stays null, a string is trimmed,
      and an empty result becomes null. */
  function FixEmptyAndTrim(s: Option<string>): Option<string> {
    if s.None? then None
    else
      var t := Trim(s.value);
      if t == [] then None else Some(t)
  }

  /** The constructor: the command line is trimmed (blank becomes null) and a
      null kill pattern is stored as the empty pattern. */
  function NewBuilder(commandLine: Option<string>, executeFromWorkingDir: Option<bool>,
                      regexToKill: Option<string>, timeAllocated: Option<string>): Builder
  {
    Builder(FixEmptyAndTrim(commandLine), executeFromWorkingDir,
            if regexToKill.None? then Some("") else regexToKill, timeAllocated)
  }

  lemma {:induction false} TrimStartSpec(s: string)
    ensures |TrimStart(s)| <= |s| && TrimStart(s) == s[|s| - |TrimStart(s)|..]
    ensures forall k :: 0 <= k < |s| - |TrimStart(s)| ==> IsBlank(s[k])
    ensures TrimStart(s) != [] ==> !IsBlank(TrimStart(s)[0])
    decreases |s|
  {
    if s != [] && IsBlank(s[0]) {
      TrimStartSpec(s[1..]);
      assert s[1..][|s| - 1 - |TrimStart(s)|..] == s[|s| - |TrimStart(s)|..];
      forall k | 0 < k < |s| - |TrimStart(s)|
        ensures IsBlank(s[k])
      {
        assert s[k] == s[1..][k - 1];
      }
    }
  }

  lemma {:induction false} TrimEndSpec(s: string)
    ensures |TrimEnd(s)| <= |s| && TrimEnd(s) == s[..|TrimEnd(s)|]
    ensures forall k :: |TrimEnd(s)| <= k < |s| ==> IsBlank(s[k])
    ensures TrimEnd(s) != [] ==> !IsBlank(TrimEnd(s)[|TrimEnd(s)| - 1])
    decreases |s|
  {
    if s != [] && IsBlank(s[|s| - 1]) {
      var init := s[..|s| - 1];
      TrimEndSpec(init);
      assert init[..|TrimEnd(s)|] == s[..|TrimEnd(s)|];
      forall k | |TrimEnd(s)| <= k < |s| - 1
        ensures IsBlank(s[k])
      {
        assert s[k] == init[k];
      }
    }
  }

  /** `String.trim` cuts blanks off both ends and nothing else: the result is
      a slice of the input, everything cut is blank, and what remains starts
      and ends with a non-blank character. */
  lemma TrimSpec(s: string)
    ensures |Trim(s)| <= |TrimStart(s)| <= |s|
    ensures var i := |s| - |TrimStart(s)|;
      && i + |Trim(s)| <= |s|
      && Trim(s) == s[i..i + |Trim(s)|]
      && (forall k :: 0 <= k < i ==> IsBlank(s[k]))
      && (forall k :: i + |Trim(s)| <= k < |s| ==> IsBlank(s[k]))
    ensures Trim(s) != [] ==> !IsBlank(Trim(s)[0]) && !IsBlank(Trim(s)[|Trim(s)| - 1])
    ensures Trim(s) == [] <==> forall k :: 0 <= k < |s| ==> IsBlank(s[k])
  {
    var u := TrimStart(s);
    var i := |s| - |u|;
    TrimStartSpec(s);
    TrimEndSpec(u);
    var t := Trim(s);
    assert t == s[i..i + |t|] by {
      assert u[..|t|] == s[i..i + |t|];
    }
    forall k | i + |t| <= k < |s|
      ensures IsBlank(s[k])
    {
      assert s[k] == u[k - i];
    }
    if t != [] {
      assert t[0] == u[0];
    }
  }

  /** What the constructor stores: the command line is null exactly when it
      was null or blank, and is otherwise trimmed; the kill pattern is never
      null, and is empty when none was given; the other two settings are
      kept as given. */
  lemma NewBuilderNormalises(commandLine: Option<string>, executeFromWorkingDir: Option<bool>,
                             regexToKill: Option<string>, timeAllocated: Option<string>)
    ensures var b := NewBuilder(commandLine, executeFromWorkingDir, regexToKill, timeAllocated);
      && (b.commandLine.None? <==>
            commandLine.None? || forall k :: 0 <= k < |commandLine.value| ==> IsBlank(commandLine.value[k]))
      && (b.commandLine.Some? ==>
            && b.commandLine.value == Trim(commandLine.value)
            && !IsBlank(b.commandLine.value[0])
            && !IsBlank(b.commandLine.value[|b.commandLine.value| - 1]))
      && b.regexToKill.Some?
      && (regexToKill.None? ==> b.regexToKill == Some(""))
      && (regexToKill.Some? ==> b.regexToKill == regexToKill)
      && b.executeFromWorkingDir == executeFromWorkingDir
      && b.timeAllocated == timeAllocated
  {
    if commandLine.Some? {
      TrimSpec(commandLine.value);
    }
  }

  // ---------------------------------------------------------------------------
  // The time limit

  /** The range of a Java `long`. */
  const LongMin: int := -0x8000_0000_0000_0000
  const LongMax: int := 0x7fff_ffff_ffff_ffff

  predicate IsDigit(c: char) {
    '0' <= c <= '9'
  }

  predicate AllDigits(s: string) {
    forall k :: 0 <= k < |s| ==> IsDigit(s[k])
  }

  function DigitValue(c: char): nat
    requires IsDigit(c)
  {
    c as int - '0' as int
  }

  /** The value of a string of decimal digits, most significant first. */
  function DigitsValue(ds: string): nat
    requires AllDigits(ds)
    decreases |ds|
  {
    if ds == [] then 0 else DigitsValue(ds[..|ds| - 1]) * 10 + DigitValue(ds[|ds| - 1])
  }

  /** `Long.parseLong`: an optional sign, then at least one decimal digit,
      and a value that fits in a `long`; anything else (including null)
      throws `NumberFormatException`, here `None`. */
  function ParseLong(s: Option<string>): (r: Option<int>)
    ensures r.Some? ==> LongMin <= r.value <= LongMax
  {
    if s.None? || s.value == [] then None
    else
      var v := s.value;
      var digits := if v[0] == '-' || v[0] == '+' then v[1..] else v;
      if digits == [] || !AllDigits(digits) then None
      else
        var n: int := if v[0] == '-' then -(DigitsValue(digits) as int) else DigitsValue(digits);
        if LongMin <= n <= LongMax then Some(n) else None
  }

  /** The `timeAllowed` of `perform`: the parsed `timeAllocated`, or 0 when
      parsing throws. */
  function TimeAllowed(timeAllocated: Option<string>): int {
    match ParseLong(timeAllocated)
    case Some(n) => n
    case None => 0
  }

  /** `Long.toString`: the decimal digits of `n`, most significant first. */
  function Digits(n: nat): (ds: string)
    decreases n
  {
    if n < 10 then [('0' as int + n) as char] else Digits(n / 10) + [('0' as int + n % 10) as char]
  }

  function LongToString(n: int): string {
    if n < 0 then "-" + Digits(-n) else Digits(n)
  }

  lemma {:induction false} DigitsValueOf(n: nat)
    ensures Digits(n) != [] && AllDigits(Digits(n))
    ensures DigitsValue(Digits(n)) == n
    decreases n
  {
    var ds := Digits(n);
    if n >= 10 {
      DigitsValueOf(n / 10);
      assert ds[..|ds| - 1] == Digits(n / 10);
    }
  }

  /** Every `long` survives printing and parsing back, so any positive limit
      can be configured. */
  lemma ParseLongRoundTrip(n: int)
    requires LongMin <= n <= LongMax
    ensures ParseLong(Some(LongToString(n))) == Some(n)
  {
    var s := LongToString(n);
    if n < 0 {
      DigitsValueOf(-n);
      assert s[1..] == Digits(-n);
    } else {
      DigitsValueOf(n);
      assert s[0] != '-' && s[0] != '+';
    }
  }

  /** A limit that parses to a positive number was written as digits, with at
      most a leading `+`. */
  lemma PositiveLimitIsDigits(timeAllocated: Option<string>)
    requires TimeAllowed(timeAllocated) > 0
    ensures timeAllocated.Some? && timeAllocated.value != []
    ensures var v := timeAllocated.value;
      (AllDigits(v) || (v[0] == '+' && AllDigits(v[1..])))
  {
  }

  /** Inputs `Long.parseLong` rejects leave `timeAllowed` at 0: null, the
      empty string, a bare sign, words, and a value one past the largest
      `long`. */
  lemma TimeAllowedRejects()
    ensures TimeAllowed(None) == 0
    ensures TimeAllowed(Some("")) == 0
    ensures TimeAllowed(Some("-")) == 0
    ensures TimeAllowed(Some("ten")) == 0
    ensures TimeAllowed(Some(LongToString(LongMax + 1))) == 0
  {
    var s := LongToString(LongMax + 1);
    DigitsValueOf(LongMax + 1);
    assert s[0] != '-' && s[0] != '+';
    assert 't' in "ten";
  }

  // ---------------------------------------------------------------------------
  // perform

  /** The settings the supervision loop reads. */
  function WatchOf(b: Builder): Supervisor.Watch {
    Supervisor.Watch(b.regexToKill, b.timeAllocated, TimeAllowed(b.timeAllocated))
  }

  /** The string `perform` passes to `addTokenized`: separators and
      environment-variable syntax converted for the node's platform, and
      `./` in front on Unix when the command is to run from the working
      directory. `convertSeparator` throws on a null command line, and
      unboxing a null `executeFromWorkingDir` throws on Unix. */
  function CommandToTokenize(b: Builder, isUnix: bool): Result<string, Fault> {
    if b.commandLine.None? then Err(NullPointer)
    else
      var sep := if isUnix then Separators.UnixSep else Separators.WindowsSep;
      var c := Separators.Converted(b.commandLine.value, sep);
      var e := if isUnix then EnvVars.Rewritten(EnvVars.Percent, c) else EnvVars.Rewritten(EnvVars.Dollar, c);
      if isUnix && b.executeFromWorkingDir.None? then Err(NullPointer)
      else if isUnix && b.executeFromWorkingDir.value then Ok("./" + e)
      else Ok(e)
  }

  /** Lines 94 to 106 of `perform`, up to the tokenizer. */
  method PrepareCommand(b: Builder, isUnix: bool) returns (r: Result<string, Fault>)
    ensures r == CommandToTokenize(b, isUnix)
  {
    if b.commandLine.None? {
      return Err(NullPointer);
    }
    var cmdLine := Separators.ConvertSeparator(b.commandLine.value, if isUnix then Separators.UnixSep else Separators.WindowsSep);
    var converted: Option<string>;
    if isUnix {
      converted := EnvVars.ConvertEnvVarsToUnix(Some(cmdLine));
    } else {
      converted := EnvVars.ConvertEnvVarsToWindows(Some(cmdLine));
    }
    if isUnix && b.executeFromWorkingDir.None? {
      return Err(NullPointer);
    }
    if isUnix && b.executeFromWorkingDir.value {
      r := Ok("./" + converted.value);
    } else {
      r := Ok(converted.value);
    }
  }

  /** `perform`: prepare the command, start the child, supervise it. A
      `NullPointerException` while preparing ends it before anything is
      started or logged; otherwise the result is `child.join() == 0` and the
      log and the kills are those of the supervision loop. */
  method Perform(b: Builder, isUnix: bool, find: string -> bool, run: Supervisor.Run,
                 log: Supervisor.BuildLog, child: Supervisor.Child)
    returns (r: Result<bool, Fault>)
    modifies log, child
    ensures CommandToTokenize(b, isUnix).Err? ==>
      r == Err(NullPointer) && log.entries == old(log.entries) && child.kills == old(child.kills)
    ensures CommandToTokenize(b, isUnix).Ok? ==>
      && r == Ok(run.exitCode == 0)
      && log.entries == old(log.entries) + Supervisor.SessionLog(WatchOf(b), find, run)
      && child.kills == old(child.kills) + Supervisor.KillsIn(WatchOf(b), find, run.ticks)
  {
    var command := PrepareCommand(b, isUnix);
    if command.Err? {
      return Err(command.error);
    }
    var timeAllowed := TimeAllowed(b.timeAllocated);
    var success := Supervisor.Supervise(Supervisor.Watch(b.regexToKill, b.timeAllocated, timeAllowed),
                                        find, run, log, child);
    r := Ok(success);
  }

  // ---------------------------------------------------------------------------
  // Properties of perform

  /** `./` is put in front exactly on Unix with `executeFromWorkingDir` set:
      the command is otherwise the same as with the flag cleared. */
  lemma WorkingDirPrefix(b: Builder)
    requires b.commandLine.Some?
    ensures CommandToTokenize(b.(executeFromWorkingDir := Some(true)), true).Ok?
    ensures CommandToTokenize(b.(executeFromWorkingDir := Some(true)), true).value
      == "./" + CommandToTokenize(b.(executeFromWorkingDir := Some(false)), true).value
  {
  }

  /** On Windows the flag is never read, so even a null flag is harmless. */
  lemma WindowsIgnoresWorkingDir(b: Builder, flag: Option<bool>)
    requires b.commandLine.Some?
    ensures CommandToTokenize(b.(executeFromWorkingDir := flag), false) == CommandToTokenize(b, false)
    ensures CommandToTokenize(b, false).Ok?
  {
  }

  /** On Windows a command line without URLs and without `$` only has its
      forward slashes turned into backslashes. */
  lemma WindowsPlainCommand(b: Builder)
    requires b.commandLine.Some?
    requires !Separators.ContainsScheme(b.commandLine.value)
    requires '$' !in b.commandLine.value
    ensures CommandToTokenize(b, false) == Ok(Separators.ReplaceSeps(b.commandLine.value, Separators.WindowsSep))
  {
    var c := b.commandLine.value;
    Separators.NoUrlReplacesAll(c, Separators.WindowsSep);
    Separators.ReplaceSepsAt(c, '\\');
    var r := Separators.ReplaceSeps(c, Separators.WindowsSep);
    assert '$' !in r by {
      forall k | 0 <= k < |r|
        ensures r[k] != '$'
      {
        assert c[k] in c;
      }
    }
    EnvVars.NoSigilUnchanged(EnvVars.Dollar, r);
  }

  /** A builder made with neither a kill pattern nor a time limit never kills
      its child, whatever the child writes and however long it runs. */
  lemma UnconfiguredNeverKills(commandLine: Option<string>, executeFromWorkingDir: Option<bool>,
                               find: string -> bool, run: Supervisor.Run)
    ensures var b := NewBuilder(commandLine, executeFromWorkingDir, None, None);
      Supervisor.KillsIn(WatchOf(b), find, run.ticks) == 0
  {
    var b := NewBuilder(commandLine, executeFromWorkingDir, None, None);
    Supervisor.UnarmedNeverKills(WatchOf(b), find, run.ticks);
  }
}

/** The environment-variable syntax converters `convertEnvVarsToUnix` and
    `convertEnvVarsToWindows`. Both run a Matcher over the command line and
    replace each left-to-right, non-overlapping match of their pattern:
    `%NAME%` becomes `$NAME` in one direction, `$NAME` becomes `%NAME%` in the
    other, NAME being a greedy run of `[a-zA-Z0-9_]`. */
module EnvVars {
  import opened Text
  import opened Wrappers

  /** The two patterns: `WIN_ENV_VAR_REGEX` is `%([a-zA-Z0-9_]+)%` and
      `UNIX_ENV_VAR_REGEX` is `\$([a-zA-Z0-9_]+)`. */
  datatype Syntax = Percent | Dollar

  /** The character that opens a reference in each syntax. */
  function Sigil(p: Syntax): char {
    match p
    case Percent => '%'
    case Dollar => '$'
  }

  /** Length of the match of the pattern anchored at the start of `s`, or 0
      when the pattern does not match there. The run of word characters is
      greedy; in `%NAME%` no backtracking can help, since `%` is not a word
      character. */
  function MatchLen(p: Syntax, s: string): (n: nat)
    ensures n <= |s|
    ensures n == 0 || 2 <= n
  {
    if s == [] || s[0] != Sigil(p) then 0
    else
      var w := WordRun(s[1..]);
      match p
      case Percent => if w > 0 && w + 1 < |s| && s[w + 1] == '%' then w + 2 else 0
      case Dollar => if w > 0 then w + 1 else 0
  }

  /** Group 1 of a match of length `n` at the start of `s`: the name. */
  function Name(p: Syntax, s: string, n: nat): string
    requires 2 <= n <= |s|
  {
    match p
    case Percent => s[1..n - 1]
    case Dollar => s[1..n]
  }

  /** What `appendReplacement` inserts for a match: `"\\$$1"` gives `$NAME`
      and `"%$1%"` gives `%NAME%`. */
  function Replacement(p: Syntax, name: string): string {
    match p
    case Percent => "$" + name
    case Dollar => "%" + name + "%"
  }

  /** A declarative reading of the patterns: `s` starts with a match of
      length `n`. For `$NAME` the greedy run must stop at a non-word
      character or at the end. */
  predicate IsMatch(p: Syntax, s: string, n: nat) {
    match p
    case Percent =>
      3 <= n <= |s| && s[0] == '%' && s[n - 1] == '%' && AllWord(s[1..n - 1])
    case Dollar =>
      2 <= n <= |s| && s[0] == '$' && AllWord(s[1..n]) && (n == |s| || !IsWordChar(s[n]))
  }

  /** The command line after every left-to-right, non-overlapping match of
      the pattern has been replaced; text between matches is copied. */
  function Rewritten(p: Syntax, s: string): string
    decreases |s|
  {
    if s == [] then []
    else
      var n := MatchLen(p, s);
      if n == 0 then [s[0]] + Rewritten(p, s[1..])
      else Replacement(p, Name(p, s, n)) + Rewritten(p, s[n..])
  }

  // ---------------------------------------------------------------------------
  // The converters as the Java code runs them

  /** The first position at or after `from` where the pattern matches, or
      `|s|` when there is none. */
  function NextMatch(p: Syntax, s: string, from: nat): (r: nat)
    requires from <= |s|
    ensures from <= r <= |s|
    ensures r < |s| ==> MatchLen(p, s[r..]) > 0
    decreases |s| - from
  {
    if from == |s| then |s|
    else if MatchLen(p, s[from..]) > 0 then from
    else NextMatch(p, s, from + 1)
  }

  /** `NextMatch` skips only positions where the pattern does not match. */
  lemma {:induction false} NextMatchSpec(p: Syntax, s: string, from: nat)
    requires from <= |s|
    ensures forall i :: from <= i < NextMatch(p, s, from) ==> MatchLen(p, s[i..]) == 0
    decreases |s| - from
  {
    if from < |s| && MatchLen(p, s[from..]) == 0 {
      NextMatchSpec(p, s, from + 1);
    }
  }

  /** `m.find()`. */
  method FindReference(p: Syntax, s: string, from: nat) returns (start: nat)
    requires from <= |s|
    ensures start == NextMatch(p, s, from)
  {
    start := from;
    while start < |s| && MatchLen(p, s[start..]) == 0
      invariant from <= start <= |s|
      invariant NextMatch(p, s, from) == NextMatch(p, s, start)
    {
      start := start + 1;
    }
  }

  /** The Matcher loop shared by both converters: `appendReplacement` for
      every match, then `appendTail`. */
  method Substitute(p: Syntax, s: string) returns (r: string)
    ensures r == Rewritten(p, s)
  {
    var sb := "";
    var appendPos := 0;
    var start := FindReference(p, s, 0);
    while start < |s|
      invariant appendPos <= start <= |s|
      invariant start == NextMatch(p, s, appendPos)
      invariant sb + Rewritten(p, s[appendPos..]) == Rewritten(p, s)
      decreases |s| - appendPos
    {
      var n := MatchLen(p, s[start..]);
      var replacement := Replacement(p, Name(p, s[start..], n));
      ghost var (before, skippedFrom) := (sb, appendPos);
      sb := sb + s[appendPos..start] + replacement;
      appendPos := start + n;
      Advance(p, s, before, skippedFrom, start, sb, appendPos);
      start := FindReference(p, s, appendPos);
    }
    Finish(p, s, sb, appendPos);
    r := sb + s[appendPos..];
  }

  /** `convertEnvVarsToUnix`: null stays null; otherwise every `%NAME%`
      becomes `$NAME`. */
  method ConvertEnvVarsToUnix(cmdLine: Option<string>) returns (r: Option<string>)
    ensures cmdLine.None? ==> r.None?
    ensures cmdLine.Some? ==> r == Some(Rewritten(Percent, cmdLine.value))
  {
    if cmdLine.None? {
      return None;
    }
    var converted := Substitute(Percent, cmdLine.value);
    r := Some(converted);
  }

  /** `convertEnvVarsToWindows`: null stays null; otherwise every `$NAME`
      becomes `%NAME%`. */
  method ConvertEnvVarsToWindows(cmdLine: Option<string>) returns (r: Option<string>)
    ensures cmdLine.None? ==> r.None?
    ensures cmdLine.Some? ==> r == Some(Rewritten(Dollar, cmdLine.value))
  {
    if cmdLine.None? {
      return None;
    }
    var converted := Substitute(Dollar, cmdLine.value);
    r := Some(converted);
  }

  /** One unmatched position: its character is copied. */
  lemma CopyStep(p: Syntax, s: string)
    requires s != [] && MatchLen(p, s) == 0
    ensures Rewritten(p, s) == [s[0]] + Rewritten(p, s[1..])
  {
  }

  /** One match: its replacement, then the rest of the line. */
  lemma ReplaceStep(p: Syntax, s: string)
    requires MatchLen(p, s) > 0
    ensures Rewritten(p, s) == Replacement(p, Name(p, s, MatchLen(p, s))) + Rewritten(p, s[MatchLen(p, s)..])
  {
  }

  /** Positions where the pattern does not match are copied one by one. */
  lemma {:induction false} UnmatchedRun(p: Syntax, s: string, i: nat, j: nat)
    requires i <= j <= |s|
    requires forall k :: i <= k < j ==> MatchLen(p, s[k..]) == 0
    ensures Rewritten(p, s[i..]) == s[i..j] + Rewritten(p, s[j..])
    decreases j - i
  {
    if i < j {
      CopyStep(p, s[i..]);
      assert s[i..][1..] == s[i + 1..];
      UnmatchedRun(p, s, i + 1, j);
      SplitSlice(s, i, i + 1, j);
      assert s[i..i + 1] == [s[i]];
      Assoc([s[i]], s[i + 1..j], Rewritten(p, s[j..]));
    }
  }

  /** The text before the next match is copied as it is. */
  lemma SkipUnmatched(p: Syntax, s: string, from: nat, start: nat)
    requires from <= |s| && start == NextMatch(p, s, from)
    ensures Rewritten(p, s[from..]) == s[from..start] + Rewritten(p, s[start..])
  {
    NextMatchSpec(p, s, from);
    UnmatchedRun(p, s, from, start);
  }

  /** A match of length `n` at `start`: its replacement, then the line after
      it. */
  lemma MatchAt(p: Syntax, s: string, start: nat, n: nat)
    requires start < |s| && n == MatchLen(p, s[start..]) && n > 0
    ensures Rewritten(p, s[start..]) == Replacement(p, Name(p, s[start..], n)) + Rewritten(p, s[start + n..])
  {
    ReplaceStep(p, s[start..]);
    assert s[start..][n..] == s[start + n..];
  }

  /** The buffer arithmetic of one `appendReplacement`. */
  lemma Splice(sb: string, pending: string, skipped: string, replacement: string, rest: string, all: string,
               sb': string)
    requires sb + pending == all && pending == skipped + (replacement + rest)
    requires sb' == sb + skipped + replacement
    ensures sb' + rest == all
  {
  }

  /** One `appendReplacement`: the text skipped since the last match, then
      the replacement, are appended; the scan resumes after the match. */
  lemma Advance(p: Syntax, s: string, sb: string, appendPos: nat, start: nat, sb': string, appendPos': nat)
    requires appendPos <= start < |s| && start == NextMatch(p, s, appendPos)
    requires sb + Rewritten(p, s[appendPos..]) == Rewritten(p, s)
    requires appendPos' == start + MatchLen(p, s[start..])
    requires sb' == sb + s[appendPos..start] + Replacement(p, Name(p, s[start..], MatchLen(p, s[start..])))
    ensures sb' + Rewritten(p, s[appendPos'..]) == Rewritten(p, s)
  {
    var n := MatchLen(p, s[start..]);
    SkipUnmatched(p, s, appendPos, start);
    MatchAt(p, s, start, n);
    assert s[appendPos'..] == s[start + n..];
    assert Rewritten(p, s[appendPos..]) == s[appendPos..start] + (Replacement(p, Name(p, s[start..], n)) + Rewritten(p, s[appendPos'..]));
    assert sb' == sb + s[appendPos..start] + Replacement(p, Name(p, s[start..], n));
    Splice(sb, Rewritten(p, s[appendPos..]), s[appendPos..start], Replacement(p, Name(p, s[start..], n)),
           Rewritten(p, s[appendPos'..]), Rewritten(p, s), sb');
  }

  /** `appendTail`: once no match is left, the rest of the line is copied. */
  lemma Finish(p: Syntax, s: string, sb: string, appendPos: nat)
    requires appendPos <= |s| && NextMatch(p, s, appendPos) == |s|
    requires sb + Rewritten(p, s[appendPos..]) == Rewritten(p, s)
    ensures sb + s[appendPos..] == Rewritten(p, s)
  {
    SkipUnmatched(p, s, appendPos, |s|);
    assert s[|s|..] == [];
    assert s[appendPos..|s|] == s[appendPos..];
  }

  // ---------------------------------------------------------------------------
  // Properties

  /** A `%NAME%` match has the length `MatchLen` reports: the name can
      neither stop before the greedy run does nor run past it. */
  lemma PercentMatchUnique(s: string, n: nat)
    requires IsMatch(Percent, s, n)
    ensures n == MatchLen(Percent, s)
  {
    assert s[1..] == s[1..n - 1] + s[n - 1..];
    WordRunOf(s[1..n - 1], s[n - 1..]);
  }

  /** A `$NAME` match has the length `MatchLen` reports. */
  lemma DollarMatchUnique(s: string, n: nat)
    requires IsMatch(Dollar, s, n)
    ensures n == MatchLen(Dollar, s)
  {
    assert s[1..] == s[1..n] + s[n..];
    WordRunOf(s[1..n], s[n..]);
  }

  /** `MatchLen` finds exactly the matches the declarative reading describes:
      a positive length is a match, and where it reports none there is no
      match of any length. */
  lemma MatchLenIsMatch(p: Syntax, s: string)
    ensures MatchLen(p, s) > 0 ==> IsMatch(p, s, MatchLen(p, s))
    ensures MatchLen(p, s) == 0 ==> forall n: nat :: !IsMatch(p, s, n)
    ensures forall n: nat :: IsMatch(p, s, n) ==> n == MatchLen(p, s)
  {
    if MatchLen(p, s) > 0 {
      var w := WordRun(s[1..]);
      WordRunMaximal(s[1..]);
      assert s[1..][..w] == s[1..w + 1];
    }
    forall n: nat | IsMatch(p, s, n)
      ensures n == MatchLen(p, s)
    {
      match p
      case Percent => PercentMatchUnique(s, n);
      case Dollar => DollarMatchUnique(s, n);
    }
  }

  /** A `%NAME%` reference is matched whole, whatever follows it. */
  lemma PercentMatchOf(name: string, rest: string)
    requires name != [] && AllWord(name)
    ensures var u := "%" + name + "%" + rest;
      MatchLen(Percent, u) == |name| + 2 && Name(Percent, u, |name| + 2) == name
        && u[|name| + 2..] == rest
  {
    var u := "%" + name + "%" + rest;
    assert u[1..] == name + ("%" + rest);
    WordRunOf(name, "%" + rest);
  }

  /** A `$NAME` reference is matched whole when the name is not followed by
      another word character. */
  lemma DollarMatchOf(name: string, rest: string)
    requires name != [] && AllWord(name)
    requires rest == [] || !IsWordChar(rest[0])
    ensures var u := "$" + name + rest;
      MatchLen(Dollar, u) == |name| + 1 && Name(Dollar, u, |name| + 1) == name
        && u[|name| + 1..] == rest
  {
    var u := "$" + name + rest;
    assert u[1..] == name + rest;
    WordRunOf(name, rest);
  }

  /** A command line without the pattern's opening character is returned
      unchanged: no `%` for `convertEnvVarsToUnix`, no `$` for
      `convertEnvVarsToWindows`. */
  lemma {:induction false} NoSigilUnchanged(p: Syntax, s: string)
    requires Sigil(p) !in s
    ensures Rewritten(p, s) == s
    decreases |s|
  {
    if s != [] {
      assert s[0] in s;
      assert forall c :: c in s[1..] ==> c in s;
      CopyStep(p, s);
      NoSigilUnchanged(p, s[1..]);
      assert s == [s[0]] + s[1..];
    }
  }

  /** A prefix without the opening character is copied as it is, whatever
      follows it. */
  lemma {:induction false} NoSigilPrefix(p: Syntax, t: string, x: string)
    requires Sigil(p) !in t
    ensures Rewritten(p, t + x) == t + Rewritten(p, x)
    decreases |t|
  {
    if t == [] {
      assert t + x == x;
    } else {
      assert (t + x)[0] == t[0] && t[0] in t;
      assert forall c :: c in t[1..] ==> c in t;
      CopyStep(p, t + x);
      ConcatSlices(t, x, 1);
      NoSigilPrefix(p, t[1..], x);
      Assoc([t[0]], t[1..], Rewritten(p, x));
      assert [t[0]] + t[1..] == t;
    }
  }

  /** `convertEnvVarsToWindows` keeps a word character at the front a word
      character, and a non-word character a non-word character: a `$NAME`
      turns into something that starts with `%`. */
  lemma DollarFront(s: string)
    requires s != []
    ensures Rewritten(Dollar, s) != []
    ensures IsWordChar(Rewritten(Dollar, s)[0]) == IsWordChar(s[0])
  {
    if MatchLen(Dollar, s) > 0 {
      ReplaceStep(Dollar, s);
      var t := Replacement(Dollar, Name(Dollar, s, MatchLen(Dollar, s)));
      assert t[0] == '%';
      assert (t + Rewritten(Dollar, s[MatchLen(Dollar, s)..]))[0] == t[0];
    } else {
      CopyStep(Dollar, s);
    }
  }

  /** The `$NAME` at the start of `s`, split into its parts. */
  lemma DollarParts(s: string)
    requires MatchLen(Dollar, s) > 0
    ensures var n := MatchLen(Dollar, s);
      s == "$" + s[1..n] + s[n..] && s[1..n] != [] && AllWord(s[1..n])
        && (s[n..] == [] || !IsWordChar(s[n..][0]))
  {
    var n := MatchLen(Dollar, s);
    WordRunMaximal(s[1..]);
    assert s[1..][..n - 1] == s[1..n];
  }

  /** Converting to Windows syntax twice is converting once: every `$` left
      in the output is followed by a non-word character or by nothing. */
  lemma {:induction false} WindowsIdempotent(s: string)
    ensures Rewritten(Dollar, Rewritten(Dollar, s)) == Rewritten(Dollar, s)
    decreases |s|
  {
    if s != [] {
      var n := MatchLen(Dollar, s);
      if n > 0 {
        ReplaceStep(Dollar, s);
        DollarParts(s);
        var t := Replacement(Dollar, s[1..n]);
        assert '$' !in t;
        NoSigilPrefix(Dollar, t, Rewritten(Dollar, s[n..]));
        WindowsIdempotent(s[n..]);
      } else {
        CopyStep(Dollar, s);
        var y := Rewritten(Dollar, s[1..]);
        ConsTail(s[0], y);
        assert MatchLen(Dollar, [s[0]] + y) == 0 by {
          if s[0] == '$' {
            assert WordRun(s[1..]) == 0;
            if s[1..] != [] {
              DollarFront(s[1..]);
            }
          }
        }
        CopyStep(Dollar, [s[0]] + y);
        WindowsIdempotent(s[1..]);
      }
    }
  }

  /** On a command line without `%`, converting to Windows syntax and back to
      Unix syntax restores it. */
  lemma {:induction false} UnixAfterWindows(s: string)
    requires '%' !in s
    ensures Rewritten(Percent, Rewritten(Dollar, s)) == s
    decreases |s|
  {
    if s != [] {
      var n := MatchLen(Dollar, s);
      if n > 0 {
        ReplaceStep(Dollar, s);
        DollarParts(s);
        var name := s[1..n];
        var rest := Rewritten(Dollar, s[n..]);
        assert forall c :: c in s[n..] ==> c in s;
        PercentMatchOf(name, rest);
        ReplaceStep(Percent, "%" + name + "%" + rest);
        UnixAfterWindows(s[n..]);
      } else {
        assert forall c :: c in s[1..] ==> c in s;
        CopyStep(Dollar, s);
        var y := Rewritten(Dollar, s[1..]);
        assert s[0] in s;
        CopyStep(Percent, [s[0]] + y);
        ConsTail(s[0], y);
        UnixAfterWindows(s[1..]);
        assert s == [s[0]] + s[1..];
      }
    }
  }

  /** The other direction is not a round trip: `%A%B` becomes `$AB`, whose
      greedy name swallows the `B`. */
  lemma WindowsAfterUnixCounterexample()
    ensures Rewritten(Percent, "%" + "A" + "%" + "B") == "$" + ("A" + "B")
    ensures Rewritten(Dollar, Rewritten(Percent, "%" + "A" + "%" + "B")) == "%" + ("A" + "B") + "%"
  {
    PercentBeforePlain("", "A", "B");
    assert "" + ("%" + "A" + "%" + "B") == "%" + "A" + "%" + "B";
    assert "" + ("$" + "A" + "B") == "$" + ("A" + "B");
    DollarAlone("A" + "B", "$" + ("A" + "B"), "%" + ("A" + "B") + "%");
  }

  /** A reference after a prefix that cannot hold one. */
  lemma AfterPlainPrefix(p: Syntax, t: string, x: string, rx: string)
    requires Sigil(p) !in t
    requires Rewritten(p, x) == rx
    ensures Rewritten(p, t + x) == t + rx
  {
    NoSigilPrefix(p, t, x);
  }

  /** A line that is one `%NAME%` reference becomes `$NAME`. */
  lemma PercentAlone(name: string, reference: string, replaced: string)
    requires name != [] && AllWord(name)
    requires reference == "%" + name + "%" && replaced == "$" + name
    ensures Rewritten(Percent, reference) == replaced
  {
    PercentMatchOf(name, "");
    assert reference + "" == reference;
    ReplaceStep(Percent, reference);
  }

  /** A line that is one `$NAME` reference becomes `%NAME%`. */
  lemma DollarAlone(name: string, reference: string, replaced: string)
    requires name != [] && AllWord(name)
    requires reference == "$" + name && replaced == "%" + name + "%"
    ensures Rewritten(Dollar, reference) == replaced
  {
    DollarMatchOf(name, "");
    assert reference + "" == reference;
    ReplaceStep(Dollar, reference);
  }

  /** A `%NAME%` reference at the end of a line, behind text without `%`. */
  lemma PercentLast(pre: string, name: string)
    requires '%' !in pre && name != [] && AllWord(name)
    ensures Rewritten(Percent, pre + ("%" + name + "%")) == pre + ("$" + name)
  {
    PercentAlone(name, "%" + name + "%", "$" + name);
    AfterPlainPrefix(Percent, pre, "%" + name + "%", "$" + name);
  }

  /** A `$NAME` reference at the end of a line, behind text without `$`. */
  lemma DollarLast(pre: string, name: string)
    requires '$' !in pre && name != [] && AllWord(name)
    ensures Rewritten(Dollar, pre + ("$" + name)) == pre + ("%" + name + "%")
  {
    DollarAlone(name, "$" + name, "%" + name + "%");
    AfterPlainPrefix(Dollar, pre, "$" + name, "%" + name + "%");
  }

  /** `testConvertEnvVarsToUnix`: a `%PATH%` after a Windows path. */
  lemma UnixExample()
    ensures Rewritten(Percent, "set PATH=C:\\;" + ("%" + "PATH" + "%")) == "set PATH=C:\\;" + ("$" + "PATH")
  {
    PercentLast("set PATH=C:\\;", "PATH");
  }

  /** `testConvertEnvVarsToWindows`: a `$PATH` after a Unix path. */
  lemma WindowsExample()
    ensures Rewritten(Dollar, "PATH=/opt/jdk17/bin:" + ("$" + "PATH")) == "PATH=/opt/jdk17/bin:" + ("%" + "PATH" + "%")
  {
    DollarLast("PATH=/opt/jdk17/bin:", "PATH");
  }

  /** The first case of `testEnvVarWinToUnix`. */
  lemma UnixVarExample()
    ensures Rewritten(Percent, "mycmd " + ("%" + "VAR" + "%")) == "mycmd " + ("$" + "VAR")
  {
    PercentLast("mycmd ", "VAR");
  }

  /** The first case of `testEnvVarUnixToWin`. */
  lemma WindowsVarExample()
    ensures Rewritten(Dollar, "mycmd " + ("$" + "VAR")) == "mycmd " + ("%" + "VAR" + "%")
  {
    DollarLast("mycmd ", "VAR");
  }

  /** A `$NAME` reference behind a prefix without `$` and before text whose
      rewrite is known. */
  lemma DollarBetween(pre: string, name: string, rest: string, rrest: string)
    requires '$' !in pre && name != [] && AllWord(name)
    requires rest == [] || !IsWordChar(rest[0])
    requires Rewritten(Dollar, rest) == rrest
    ensures Rewritten(Dollar, pre + ("$" + name + rest)) == pre + ("%" + name + "%" + rrest)
  {
    DollarMatchOf(name, rest);
    ReplaceStep(Dollar, "$" + name + rest);
    AfterPlainPrefix(Dollar, pre, "$" + name + rest, "%" + name + "%" + rrest);
  }

  /** A `%NAME%` reference behind a prefix without `%` and before text whose
      rewrite is known. */
  lemma PercentBetween(pre: string, name: string, rest: string, rrest: string)
    requires '%' !in pre && name != [] && AllWord(name)
    requires Rewritten(Percent, rest) == rrest
    ensures Rewritten(Percent, pre + ("%" + name + "%" + rest)) == pre + ("$" + name + rrest)
  {
    PercentMatchOf(name, rest);
    ReplaceStep(Percent, "%" + name + "%" + rest);
    AfterPlainPrefix(Percent, pre, "%" + name + "%" + rest, "$" + name + rrest);
  }

  /** One `$NAME` reference between two stretches of text without `$`; the
      text after it does not start with a word character. */
  lemma DollarBeforePlain(pre: string, name: string, rest: string)
    requires '$' !in pre && '$' !in rest && name != [] && AllWord(name)
    requires rest == [] || !IsWordChar(rest[0])
    ensures Rewritten(Dollar, pre + ("$" + name + rest)) == pre + ("%" + name + "%" + rest)
  {
    NoSigilUnchanged(Dollar, rest);
    DollarBetween(pre, name, rest, rest);
  }

  /** One `%NAME%` reference between two stretches of text without `%`. */
  lemma PercentBeforePlain(pre: string, name: string, rest: string)
    requires '%' !in pre && '%' !in rest && name != [] && AllWord(name)
    ensures Rewritten(Percent, pre + ("%" + name + "%" + rest)) == pre + ("$" + name + rest)
  {
    NoSigilUnchanged(Percent, rest);
    PercentBetween(pre, name, rest, rest);
  }

  /** The second case of `testEnvVarUnixToWin`. */
  lemma WindowsDirExample()
    ensures Rewritten(Dollar, "mycmd " + ("$" + "VAR" + "/one_dir")) == "mycmd " + ("%" + "VAR" + "%" + "/one_dir")
  {
    DollarBeforePlain("mycmd ", "VAR", "/one_dir");
  }

  /** Two `$NAME` references, separated by text that has no `$` and does not
      start with a word character. */
  lemma TwoDollars(pre: string, first: string, mid: string, second: string)
    requires '$' !in pre && '$' !in mid
    requires mid == [] || !IsWordChar(mid[0])
    requires first != [] && AllWord(first) && second != [] && AllWord(second)
    ensures Rewritten(Dollar, pre + ("$" + first + (mid + ("$" + second))))
         == pre + ("%" + first + "%" + (mid + ("%" + second + "%")))
  {
    DollarAlone(second, "$" + second, "%" + second + "%");
    AfterPlainPrefix(Dollar, mid, "$" + second, "%" + second + "%");
    if mid == [] {
      assert mid + ("$" + second) == "$" + second;
    } else {
      assert (mid + ("$" + second))[0] == mid[0];
    }
    DollarBetween(pre, first, mid + ("$" + second), mid + ("%" + second + "%"));
  }

  /** The third case of `testEnvVarUnixToWin`: two references. */
  lemma WindowsTwoExample()
    ensures Rewritten(Dollar, "mycmd " + ("$" + "WORKSPACE" + ("/" + ("$" + "JOB_NAME"))))
         == "mycmd " + ("%" + "WORKSPACE" + "%" + ("/" + ("%" + "JOB_NAME" + "%")))
  {
    TwoDollars("mycmd ", "WORKSPACE", "/", "JOB_NAME");
  }

  /** The second case of `testEnvVarWinToUnix`. */
  lemma UnixDirExample()
    ensures Rewritten(Percent, "mycmd " + ("%" + "VAR" + "%" + "\\one_dir")) == "mycmd " + ("$" + "VAR" + "\\one_dir")
  {
    PercentBeforePlain("mycmd ", "VAR", "\\one_dir");
  }

  /** Two `%NAME%` references, separated by text that has no `%`. */
  lemma TwoPercents(pre: string, first: string, mid: string, second: string)
    requires '%' !in pre && '%' !in mid
    requires first != [] && AllWord(first) && second != [] && AllWord(second)
    ensures Rewritten(Percent, pre + ("%" + first + "%" + (mid + ("%" + second + "%"))))
         == pre + ("$" + first + (mid + ("$" + second)))
  {
    PercentAlone(second, "%" + second + "%", "$" + second);
    AfterPlainPrefix(Percent, mid, "%" + second + "%", "$" + second);
    PercentBetween(pre, first, mid + ("%" + second + "%"), mid + ("$" + second));
  }

  /** The third case of `testEnvVarWinToUnix`: two references. */
  lemma UnixTwoExample()
    ensures Rewritten(Percent, "mycmd " + ("%" + "WORKSPACE" + "%" + ("\\" + ("%" + "JOB_NAME" + "%"))))
         == "mycmd " + ("$" + "WORKSPACE" + ("\\" + ("$" + "JOB_NAME")))
  {
    TwoPercents("mycmd ", "WORKSPACE", "\\", "JOB_NAME");
  }

  /** `testEnvVarUnixToUnix`: the Unix converter leaves `$NAME` alone. */
  lemma UnixKeepsDollarExamples()
    ensures Rewritten(Percent, "mycmd " + "$VAR") == "mycmd " + "$VAR"
    ensures Rewritten(Percent, "mycmd " + "$VAR" + "/one_dir") == "mycmd " + "$VAR" + "/one_dir"
    ensures Rewritten(Percent, "mycmd " + "$WORKSPACE" + "/" + "$JOB_NAME") == "mycmd " + "$WORKSPACE" + "/" + "$JOB_NAME"
  {
    NoSigilUnchanged(Percent, "mycmd " + "$VAR");
    NoSigilUnchanged(Percent, "mycmd " + "$VAR" + "/one_dir");
    NoSigilUnchanged(Percent, "mycmd " + "$WORKSPACE" + "/" + "$JOB_NAME");
  }

  /** `testEnvVarWinToWin`: the Windows converter leaves `%NAME%` alone. */
  lemma WindowsKeepsPercentExamples()
    ensures Rewritten(Dollar, "mycmd " + "%VAR%") == "mycmd " + "%VAR%"
    ensures Rewritten(Dollar, "mycmd " + "%VAR%" + "\\one_dir") == "mycmd " + "%VAR%" + "\\one_dir"
    ensures Rewritten(Dollar, "mycmd " + "%WORKSPACE%" + "\\" + "%JOB_NAME%") == "mycmd " + "%WORKSPACE%" + "\\" + "%JOB_NAME%"
  {
    NoSigilUnchanged(Dollar, "mycmd " + "%VAR%");
    NoSigilUnchanged(Dollar, "mycmd " + "%VAR%" + "\\one_dir");
    NoSigilUnchanged(Dollar, "mycmd " + "%WORKSPACE%" + "\\" + "%JOB_NAME%");
  }

  lemma DollarBracedPath()
    ensures Rewritten(Dollar, "${PATH}") == "${PATH}"
  {
    CopyStep(Dollar, "${PATH}");
    assert "${PATH}"[1..] == "{PATH}";
    NoSigilUnchanged(Dollar, "{PATH}");
  }

  /** `testConvertEnvVarsToWindowsBraced`: `${PATH}` is not a reference in
      this syntax and is left alone. */
  lemma WindowsBracedExample()
    ensures Rewritten(Dollar, "PATH=/opt/jdk17/bin:" + "${PATH}") == "PATH=/opt/jdk17/bin:" + "${PATH}"
  {
    DollarBracedPath();
    AfterPlainPrefix(Dollar, "PATH=/opt/jdk17/bin:", "${PATH}", "${PATH}");
  }
}

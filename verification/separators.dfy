/** The path-separator translator `convertSeparator`: every maximal run of
    non-whitespace is a token; a token in which the URL pattern `(https*|ftp|git):`
    occurs is copied as it is, and in every other token each `/` and `\` is
    replaced by the new separator. Whitespace between tokens is kept. */
module Separators {
  import opened Text

  /** `UNIX_SEP` and `WINDOWS_SEP`. */
  const UnixSep: string := "/"
  const WindowsSep: string := "\\"

  /** The pattern `https*:` at the start of `s`, after its "http": any number
      of 's' and then a colon. */
  predicate EssesThenColon(s: string) {
    s != [] && (s[0] == ':' || (s[0] == 's' && EssesThenColon(s[1..])))
  }

  /** The URL pattern `(https*|ftp|git):` matches at the start of `s`. */
  predicate SchemeAt(s: string) {
    |s| >= 4 &&
    ((s[0] == 'f' && s[1] == 't' && s[2] == 'p' && s[3] == ':') ||
     (s[0] == 'g' && s[1] == 'i' && s[2] == 't' && s[3] == ':') ||
     (s[0] == 'h' && s[1] == 't' && s[2] == 't' && s[3] == 'p' && EssesThenColon(s[4..])))
  }

  /** An unanchored `find()` of the URL pattern in `s`. */
  predicate ContainsScheme(s: string) {
    s != [] && (SchemeAt(s) || ContainsScheme(s[1..]))
  }

  /** `item.replaceAll("[/\\\\]", quoteReplacement(sep))`: every `/` and `\`
      becomes the literal text `sep`. */
  function ReplaceSeps(s: string, sep: string): string {
    if s == [] then [] else (if IsSep(s[0]) then sep else [s[0]]) + ReplaceSeps(s[1..], sep)
  }

  /** What one token becomes. */
  function TranslateToken(token: string, sep: string): string {
    if ContainsScheme(token) then token else ReplaceSeps(token, sep)
  }

  /** The result of `convertSeparator(s, sep)`, token by token from the left. */
  function Converted(s: string, sep: string): string
    decreases |s|
  {
    if s == [] then []
    else if IsSpace(s[0]) then [s[0]] + Converted(s[1..], sep)
    else
      var n := TokenLen(s);
      TranslateToken(s[..n], sep) + Converted(s[n..], sep)
  }

  // ---------------------------------------------------------------------------
  // The translator as the Java code runs it: a Matcher over `\S+`

  /** `m.find()` for the pattern `\S+` from position `from`: `start` is where
      the next token begins and `end` where it stops, or both are `|s|` when
      no token is left (`NextToken` spells out what these positions are). */
  method FindToken(s: string, from: nat) returns (start: nat, end: nat)
    requires from <= |s|
    ensures start == from + SpaceRun(s[from..])
    ensures end == start + TokenLen(s[start..])
    ensures from <= start <= end <= |s|
    ensures start < |s| ==> start < end
  {
    start := from;
    while start < |s| && IsSpace(s[start])
      invariant from <= start <= |s|
      invariant from + SpaceRun(s[from..]) == start + SpaceRun(s[start..])
    {
      assert s[start..][1..] == s[start + 1..];
      start := start + 1;
    }
    end := start;
    while end < |s| && !IsSpace(s[end])
      invariant start <= end <= |s|
      invariant start + TokenLen(s[start..]) == end + TokenLen(s[end..])
    {
      assert s[end..][1..] == s[end + 1..];
      end := end + 1;
    }
  }

  /** The positions `FindToken` reports are those of the next match of
      `\S+`: only whitespace is skipped, and the token is a maximal run of
      non-whitespace. */
  lemma NextToken(s: string, from: nat)
    requires from <= |s|
    ensures var start := from + SpaceRun(s[from..]);
      var end := start + TokenLen(s[start..]);
      && start <= end <= |s|
      && AllSpace(s[from..start])
      && (start < |s| ==> start < end && NoSpace(s[start..end]) && (end == |s| || IsSpace(s[end])))
  {
    var start := from + SpaceRun(s[from..]);
    SpaceRunMaximal(s[from..]);
    assert s[from..][..start - from] == s[from..start];
    if start < |s| {
      assert s[from..][start - from] == s[start];
      TokenLenMaximal(s[start..]);
      var end := start + TokenLen(s[start..]);
      assert s[start..][..end - start] == s[start..end];
      if end < |s| {
        assert s[start..][end - start] == s[end];
      }
    }
  }

  /** `convertSeparator(cmdLine, newSeparator)`: a token that is not a URL is
      handed to `appendReplacement`, which also copies the text skipped since
      the previous replacement; `appendTail` copies the rest. */
  method ConvertSeparator(cmdLine: string, newSeparator: string) returns (r: string)
    ensures r == Converted(cmdLine, newSeparator)
  {
    var sb := "";
    var appendPos, from := 0, 0;
    var start, end := FindToken(cmdLine, 0);
    while start < |cmdLine|
      invariant appendPos <= from <= start <= end <= |cmdLine|
      invariant start == from + SpaceRun(cmdLine[from..])
      invariant end == start + TokenLen(cmdLine[start..])
      invariant start < |cmdLine| ==> start < end
      invariant sb + cmdLine[appendPos..from] + Converted(cmdLine[from..], newSeparator)
             == Converted(cmdLine, newSeparator)
      decreases |cmdLine| - from
    {
      var item := cmdLine[start..end];
      ConvertedFrom(cmdLine, newSeparator, from, start, end);
      if !ContainsScheme(item) {
        ReplacementStep(cmdLine, newSeparator, sb, appendPos, from, start, end);
        sb := sb + cmdLine[appendPos..start] + ReplaceSeps(item, newSeparator);
        appendPos := end;
      } else {
        UrlStep(cmdLine, newSeparator, sb, appendPos, from, start, end);
      }
      from := end;
      start, end := FindToken(cmdLine, from);
    }
    ConvertedFrom(cmdLine, newSeparator, from, start, end);
    TailStep(cmdLine, newSeparator, sb, appendPos, from);
    r := sb + cmdLine[appendPos..];
  }

  /** What is left of the line from `from` on, translated: the whitespace
      up to the next token, the token (copied if it holds a URL, with its
      separators replaced otherwise), and the rest; or only whitespace. */
  lemma ConvertedFrom(s: string, sep: string, from: nat, start: nat, end: nat)
    requires from <= start <= end <= |s|
    requires start == from + SpaceRun(s[from..]) && end == start + TokenLen(s[start..])
    ensures start < |s| && !ContainsScheme(s[start..end]) ==>
      Converted(s[from..], sep) == s[from..start] + ReplaceSeps(s[start..end], sep) + Converted(s[end..], sep)
    ensures start < |s| && ContainsScheme(s[start..end]) ==>
      Converted(s[from..], sep) == s[from..start] + s[start..end] + Converted(s[end..], sep)
    ensures start == |s| ==> Converted(s[from..], sep) == s[from..]
  {
    NextToken(s, from);
    if start < |s| {
      ConvertedAt(s, from, start, end, sep);
    } else {
      assert s[from..start] == s[from..];
      ConvertedAllSpace(s[from..], sep);
    }
  }

  /** One `appendReplacement`: the skipped text and the rewritten token are
      appended, and the append position moves past the token. */
  lemma ReplacementStep(s: string, sep: string, sb: string, appendPos: nat, from: nat, start: nat, end: nat)
    requires appendPos <= from <= start < end <= |s|
    requires Converted(s[from..], sep) == s[from..start] + ReplaceSeps(s[start..end], sep) + Converted(s[end..], sep)
    requires sb + s[appendPos..from] + Converted(s[from..], sep) == Converted(s, sep)
    ensures sb + s[appendPos..start] + ReplaceSeps(s[start..end], sep) + s[end..end] + Converted(s[end..], sep)
         == Converted(s, sep)
  {
    var skipped, space, token := s[appendPos..from], s[from..start], s[start..end];
    var t, pending, rest := ReplaceSeps(token, sep), Converted(s[from..], sep), Converted(s[end..], sep);
    SplitSlice(s, appendPos, from, start);
    assert s[end..end] == [];
    Regroup(sb, skipped, space, t, pending, rest, Converted(s, sep));
  }

  /** A URL token is skipped by the loop: the append position stays, so the
      token is later copied along with the text around it. */
  lemma UrlStep(s: string, sep: string, sb: string, appendPos: nat, from: nat, start: nat, end: nat)
    requires appendPos <= from <= start < end <= |s|
    requires Converted(s[from..], sep) == s[from..start] + s[start..end] + Converted(s[end..], sep)
    requires sb + s[appendPos..from] + Converted(s[from..], sep) == Converted(s, sep)
    ensures sb + s[appendPos..end] + Converted(s[end..], sep) == Converted(s, sep)
  {
    var skipped, space, token := s[appendPos..from], s[from..start], s[start..end];
    SplitSlice(s, appendPos, from, start);
    SplitSlice(s, appendPos, start, end);
    Regroup(sb, skipped, space, token, Converted(s[from..], sep), Converted(s[end..], sep), Converted(s, sep));
    Assoc(sb, skipped + space, token);
  }

  /** `appendTail`: only whitespace is left after the last token. */
  lemma TailStep(s: string, sep: string, sb: string, appendPos: nat, from: nat)
    requires appendPos <= from <= |s|
    requires Converted(s[from..], sep) == s[from..]
    requires sb + s[appendPos..from] + Converted(s[from..], sep) == Converted(s, sep)
    ensures sb + s[appendPos..] == Converted(s, sep)
  {
    SplitSuffix(s, appendPos, from);
    Assoc(sb, s[appendPos..from], s[from..]);
  }

  lemma Regroup(sb: string, a: string, b: string, t: string, pending: string, rest: string, all: string)
    requires sb + a + pending == all
    requires pending == b + t + rest
    ensures sb + (a + b) + t + [] + rest == all
  {
  }

  // ---------------------------------------------------------------------------
  // Structure of the translation

  /** Whitespace is copied unchanged. */
  lemma {:induction false} ConvertedAllSpace(s: string, sep: string)
    requires AllSpace(s)
    ensures Converted(s, sep) == s
    decreases |s|
  {
    if s != [] {
      ConvertedAllSpace(s[1..], sep);
      assert s == [s[0]] + s[1..];
    }
  }

  /** A single token is translated as a whole. */
  lemma TokenConverted(token: string, sep: string)
    requires token != [] && NoSpace(token)
    ensures Converted(token, sep) == TranslateToken(token, sep)
  {
    TokenLenOf(token, []);
    assert token + [] == token;
    assert token[..|token|] == token;
  }

  /** The translation works token by token: cutting the input at whitespace
      cuts the output at the same place. */
  lemma {:induction false} ConvertedSplits(a: string, b: string, sep: string)
    requires a == [] || b == [] || IsSpace(a[|a| - 1]) || IsSpace(b[0])
    ensures Converted(a + b, sep) == Converted(a, sep) + Converted(b, sep)
    decreases |a|
  {
    if a == [] {
      assert a + b == b;
    } else if b == [] {
      assert a + b == a;
    } else if IsSpace(a[0]) {
      ConcatSlices(a, b, 1);
      ConvertedSplits(a[1..], b, sep);
      Assoc([a[0]], Converted(a[1..], sep), Converted(b, sep));
    } else {
      var n := TokenLen(a);
      TokenLenMaximal(a);
      ConcatSlices(a, b, n);
      if n < |a| {
        TokenLenOf(a[..n], a[n..] + b);
        Assoc(a[..n], a[n..], b);
        assert a[..n] + a[n..] == a;
        ConvertedSplits(a[n..], b, sep);
        Assoc(TranslateToken(a[..n], sep), Converted(a[n..], sep), Converted(b, sep));
      } else {
        TokenLenOf(a, b);
        assert a[..n] == a && a[n..] == [];
        TokenConverted(a, sep);
      }
    }
  }

  /** How the scanner in `ConvertSeparator` sees the rest of the input: the
      whitespace before the next token, the token, and whatever follows. */
  lemma ConvertedAt(s: string, from: nat, start: nat, end: nat, sep: string)
    requires from <= start < end <= |s|
    requires AllSpace(s[from..start]) && NoSpace(s[start..end])
    requires end == |s| || IsSpace(s[end])
    ensures Converted(s[from..], sep)
         == s[from..start] + TranslateToken(s[start..end], sep) + Converted(s[end..], sep)
  {
    var space, token, rest := s[from..start], s[start..end], s[end..];
    SplitSuffix(s, from, start);
    SplitSuffix(s, start, end);
    Assoc(space, token, rest);
    TokenInContext(space, token, rest, sep);
    ConvertedAllSpace(space, sep);
  }

  /** A token is translated on its own, whatever lies around it. */
  lemma TokenInContext(before: string, token: string, after: string, sep: string)
    requires token != [] && NoSpace(token)
    requires before == [] || IsSpace(before[|before| - 1])
    requires after == [] || IsSpace(after[0])
    ensures Converted(before + token + after, sep)
         == Converted(before, sep) + TranslateToken(token, sep) + Converted(after, sep)
  {
    var cb, t, ca := Converted(before, sep), TranslateToken(token, sep), Converted(after, sep);
    ConvertedSplits(token, after, sep);
    TokenConverted(token, sep);
    ConvertedSplits(before, token + after, sep);
    Assoc(before, token, after);
    Assoc(cb, t, ca);
  }

  /** A token in which `http:`, `https:` (any number of 's'), `ftp:` or `git:`
      occurs is copied to the output unchanged, and every other token has each
      `/` and `\` replaced by `sep`; what lies on either side is translated on
      its own. */
  lemma TokenTranslated(before: string, token: string, after: string, sep: string)
    requires token != [] && NoSpace(token)
    requires before == [] || IsSpace(before[|before| - 1])
    requires after == [] || IsSpace(after[0])
    ensures ContainsScheme(token) ==>
      Converted(before + token + after, sep) == Converted(before, sep) + token + Converted(after, sep)
    ensures !ContainsScheme(token) ==>
      Converted(before + token + after, sep)
        == Converted(before, sep) + ReplaceSeps(token, sep) + Converted(after, sep)
  {
    TokenInContext(before, token, after, sep);
  }

  // ---------------------------------------------------------------------------
  // Separator replacement

  /** Replacing by one character keeps the length and every other character. */
  lemma {:induction false} ReplaceSepsAt(s: string, c: char)
    ensures |ReplaceSeps(s, [c])| == |s|
    ensures forall k :: 0 <= k < |s| ==>
      ReplaceSeps(s, [c])[k] == (if IsSep(s[k]) then c else s[k])
  {
    if s != [] {
      ReplaceSepsAt(s[1..], c);
    }
  }

  lemma {:induction false} ReplaceSepsConcat(a: string, b: string, sep: string)
    ensures ReplaceSeps(a + b, sep) == ReplaceSeps(a, sep) + ReplaceSeps(b, sep)
    decreases |a|
  {
    if a == [] {
      assert a + b == b;
    } else {
      ConcatSlices(a, b, 1);
      ReplaceSepsConcat(a[1..], b, sep);
      Assoc(if IsSep(a[0]) then sep else [a[0]], ReplaceSeps(a[1..], sep), ReplaceSeps(b, sep));
    }
  }

  /** `s` and `t` differ at most in which separator stands at a position. */
  predicate SameUpToSeps(s: string, t: string) {
    |s| == |t| &&
    forall k :: 0 <= k < |s| ==> IsSep(s[k]) == IsSep(t[k]) && (!IsSep(s[k]) ==> s[k] == t[k])
  }

  lemma {:induction false} EssesUpToSeps(s: string, t: string)
    requires SameUpToSeps(s, t)
    ensures EssesThenColon(s) == EssesThenColon(t)
    decreases |s|
  {
    if s != [] {
      EssesUpToSeps(s[1..], t[1..]);
    }
  }

  /** Separators take no part in the URL pattern, so which of them stands
      where cannot make or break a URL. */
  lemma {:induction false} SchemeUpToSeps(s: string, t: string)
    requires SameUpToSeps(s, t)
    ensures ContainsScheme(s) == ContainsScheme(t)
    decreases |s|
  {
    if s != [] {
      if |s| >= 4 {
        EssesUpToSeps(s[4..], t[4..]);
      }
      SchemeUpToSeps(s[1..], t[1..]);
    }
  }

  /** A separator replacement is a no-op on its own output, and leaves the
      token's URL status alone. */
  lemma TranslateTokenTwice(token: string, sep: string)
    requires sep == "/" || sep == "\\"
    ensures TranslateToken(TranslateToken(token, sep), sep) == TranslateToken(token, sep)
    ensures |TranslateToken(token, sep)| == |token|
    ensures NoSpace(token) ==> NoSpace(TranslateToken(token, sep))
  {
    var c := sep[0];
    assert sep == [c];
    var r := ReplaceSeps(token, sep);
    ReplaceSepsAt(token, c);
    ReplaceSepsAt(r, c);
    assert SameUpToSeps(token, r);
    SchemeUpToSeps(token, r);
    assert ReplaceSeps(r, sep) == r;
  }

  // ---------------------------------------------------------------------------
  // Properties of convertSeparator

  /** Converting twice with `UNIX_SEP` or `WINDOWS_SEP` is converting once. */
  lemma {:induction false} ConvertIdempotent(s: string, sep: string)
    requires sep == "/" || sep == "\\"
    ensures Converted(Converted(s, sep), sep) == Converted(s, sep)
    decreases |s|
  {
    if s == [] {
    } else if IsSpace(s[0]) {
      var r := Converted(s[1..], sep);
      ConsTail(s[0], r);
      ConvertIdempotent(s[1..], sep);
    } else {
      var n := TokenLen(s);
      var token, rest := s[..n], s[n..];
      TokenLenMaximal(s);
      var t := TranslateToken(token, sep);
      var r := Converted(rest, sep);
      TranslateTokenTwice(token, sep);
      if rest != [] {
        assert r == [rest[0]] + Converted(rest[1..], sep);
      }
      ConvertedSplits(t, r, sep);
      TokenConverted(t, sep);
      ConvertIdempotent(rest, sep);
    }
  }

  /** The two strings agree everywhere except where `s` holds a separator,
      which `r` either keeps or turns into `c`. */
  predicate Reshaped(s: string, r: string, c: char) {
    |r| == |s| &&
    forall k :: 0 <= k < |s| ==> if IsSep(s[k]) then r[k] == s[k] || r[k] == c else r[k] == s[k]
  }

  lemma ReshapedConcat(a: string, ra: string, b: string, rb: string, c: char)
    requires Reshaped(a, ra, c) && Reshaped(b, rb, c)
    ensures Reshaped(a + b, ra + rb, c)
  {
    forall k | 0 <= k < |a + b|
      ensures if IsSep((a + b)[k]) then (ra + rb)[k] == (a + b)[k] || (ra + rb)[k] == c
              else (ra + rb)[k] == (a + b)[k]
    {
      if k < |a| {
        assert (a + b)[k] == a[k] && (ra + rb)[k] == ra[k];
      } else {
        assert (a + b)[k] == b[k - |a|] && (ra + rb)[k] == rb[k - |a|];
      }
    }
  }

  /** With a one-character separator the result has the input's length, and
      every character other than `/` and `\` (whitespace included) stays at
      its position; a separator either stays or becomes the new one. */
  lemma {:induction false} ConvertKeepsShape(s: string, c: char)
    ensures Reshaped(s, Converted(s, [c]), c)
    decreases |s|
  {
    if s == [] {
    } else if IsSpace(s[0]) {
      ConvertKeepsShape(s[1..], c);
      ReshapedConcat([s[0]], [s[0]], s[1..], Converted(s[1..], [c]), c);
      assert [s[0]] + s[1..] == s;
    } else {
      var n := TokenLen(s);
      var token := s[..n];
      ConvertKeepsShape(s[n..], c);
      ReplaceSepsAt(token, c);
      assert Reshaped(token, TranslateToken(token, [c]), c);
      ReshapedConcat(token, TranslateToken(token, [c]), s[n..], Converted(s[n..], [c]), c);
      assert token + s[n..] == s;
    }
  }

  lemma {:induction false} EssesInPrefix(a: string, b: string)
    requires EssesThenColon(a)
    ensures EssesThenColon(a + b)
    decreases |a|
  {
    if a[0] != ':' {
      ConcatSlices(a, b, 1);
      EssesInPrefix(a[1..], b);
    }
  }

  lemma {:induction false} SchemeInPrefix(a: string, b: string)
    requires ContainsScheme(a)
    ensures ContainsScheme(a + b)
    decreases |a|
  {
    ConcatSlices(a, b, 1);
    if SchemeAt(a) {
      assert (a + b)[0] == a[0] && (a + b)[1] == a[1] && (a + b)[2] == a[2] && (a + b)[3] == a[3];
      if a[0] == 'h' {
        EssesInPrefix(a[4..], b);
        ConcatSlices(a, b, 4);
      }
      assert SchemeAt(a + b);
    } else {
      SchemeInPrefix(a[1..], b);
    }
  }

  lemma {:induction false} SchemeInSuffix(a: string, b: string)
    requires ContainsScheme(b)
    ensures ContainsScheme(a + b)
    decreases |a|
  {
    if a == [] {
      assert a + b == b;
    } else {
      ConcatSlices(a, b, 1);
      SchemeInSuffix(a[1..], b);
    }
  }

  /** When no URL occurs in the command line at all, the translation is a plain
      replacement of every separator in the whole string. */
  lemma {:induction false} NoUrlReplacesAll(s: string, sep: string)
    requires !ContainsScheme(s)
    ensures Converted(s, sep) == ReplaceSeps(s, sep)
    decreases |s|
  {
    if s == [] {
    } else if IsSpace(s[0]) {
      NoUrlReplacesAll(s[1..], sep);
    } else {
      var n := TokenLen(s);
      assert s == s[..n] + s[n..];
      if ContainsScheme(s[..n]) {
        SchemeInPrefix(s[..n], s[n..]);
      }
      if ContainsScheme(s[n..]) {
        SchemeInSuffix(s[..n], s[n..]);
      }
      NoUrlReplacesAll(s[n..], sep);
      ReplaceSepsConcat(s[..n], s[n..], sep);
    }
  }

  /** The URL pattern always ends in a colon, so a token without one is
      never taken for a URL. */
  lemma {:induction false} EssesNeedColon(s: string)
    ensures EssesThenColon(s) ==> ':' in s
    decreases |s|
  {
    if s != [] && s[0] != ':' {
      EssesNeedColon(s[1..]);
      assert s == [s[0]] + s[1..];
    }
  }

  lemma {:induction false} SchemeNeedsColon(s: string)
    ensures ContainsScheme(s) ==> ':' in s
    decreases |s|
  {
    if s != [] {
      assert s == [s[0]] + s[1..];
      SchemeNeedsColon(s[1..]);
      if |s| >= 4 {
        assert s == s[..4] + s[4..];
        EssesNeedColon(s[4..]);
      }
    }
  }

  /** Text without separators is left as it is. */
  lemma {:induction false} NoSepsUnchanged(s: string, sep: string)
    requires '/' !in s && '\\' !in s
    ensures ReplaceSeps(s, sep) == s
    decreases |s|
  {
    if s != [] {
      assert s[1..] == s[|s| - |s[1..]|..];
      NoSepsUnchanged(s[1..], sep);
    }
  }

  /** A command line without URLs and with a single separator: only that
      separator changes. */
  lemma OneSeparator(pre: string, found: char, post: string, sep: string)
    requires IsSep(found)
    requires ':' !in pre && ':' !in post
    requires '/' !in pre && '\\' !in pre && '/' !in post && '\\' !in post
    ensures Converted(pre + [found] + post, sep) == pre + sep + post
  {
    var s := pre + [found] + post;
    assert ':' !in s by {
      assert s == pre + ([found] + post);
    }
    SchemeNeedsColon(s);
    NoUrlReplacesAll(s, sep);
    ReplaceSepsConcat(pre + [found], post, sep);
    ReplaceSepsConcat(pre, [found], sep);
    NoSepsUnchanged(pre, sep);
    NoSepsUnchanged(post, sep);
  }

  /** The test converting `"mycmd a/b"` to the Windows separator. */
  lemma UnixToWindowsExample(s: string)
    requires s == "mycmd a/b"
    ensures Converted(s, WindowsSep) == "mycmd a\\b"
  {
    OneSeparator("mycmd a", '/', "b", WindowsSep);
    assert s == "mycmd a" + ['/'] + "b";
  }

  /** The test converting `"mycmd a\b"` to the Unix separator. */
  lemma WindowsToUnixExample(s: string)
    requires s == "mycmd a\\b"
    ensures Converted(s, UnixSep) == "mycmd a/b"
  {
    OneSeparator("mycmd a", '\\', "b", UnixSep);
    assert s == "mycmd a" + ['\\'] + "b";
  }
}

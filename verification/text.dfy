/** Option and Result, used where the Java code works with a reference that may
    be null or with an exception. */
module Wrappers {

  datatype Option<+T> = None | Some(value: T)

  datatype Result<+R, +E> = Ok(value: R) | Err(error: E)
}

/** Character classes of the regular expressions used by the builder. */
module Text {

  /** Java's predefined class `\s` without UNICODE_CHARACTER_CLASS:
      space, and tab, newline, vertical tab, form feed and carriage return
      (the codes 9 to 13). */
  predicate IsSpace(c: char) {
    c == ' ' || ('\t' <= c <= '\r')
  }

  /** The class `[a-zA-Z0-9_]` that names an environment variable. */
  predicate IsWordChar(c: char) {
    ('a' <= c <= 'z') || ('A' <= c <= 'Z') || ('0' <= c <= '9') || c == '_'
  }

  /** The class `[/\\]`: the two path separators. */
  predicate IsSep(c: char) {
    c == '/' || c == '\\'
  }

  predicate AllSpace(s: string) {
    forall k :: 0 <= k < |s| ==> IsSpace(s[k])
  }

  predicate NoSpace(s: string) {
    forall k :: 0 <= k < |s| ==> !IsSpace(s[k])
  }

  predicate AllWord(s: string) {
    forall k :: 0 <= k < |s| ==> IsWordChar(s[k])
  }

  /** Number of characters in the longest prefix of `s` made of `[a-zA-Z0-9_]`:
      what a greedy `[a-zA-Z0-9_]+` (or `*`) consumes at the start of `s`. */
  function WordRun(s: string): (n: nat)
    ensures n <= |s|
  {
    if s == [] || !IsWordChar(s[0]) then 0 else 1 + WordRun(s[1..])
  }

  /** The run found by `WordRun` is made of word characters and is maximal. */
  lemma {:induction false} WordRunMaximal(s: string)
    ensures AllWord(s[..WordRun(s)])
    ensures WordRun(s) < |s| ==> !IsWordChar(s[WordRun(s)])
  {
    if s != [] && IsWordChar(s[0]) {
      WordRunMaximal(s[1..]);
      assert s[..WordRun(s)] == [s[0]] + s[1..][..WordRun(s[1..])];
    }
  }

  /** Number of characters in the longest prefix of `s` made of `\s`: the
      whitespace `find()` skips before the next `\S+` token. */
  function SpaceRun(s: string): (n: nat)
    ensures n <= |s|
  {
    if s == [] || !IsSpace(s[0]) then 0 else 1 + SpaceRun(s[1..])
  }

  /** The run found by `SpaceRun` is whitespace and is maximal. */
  lemma {:induction false} SpaceRunMaximal(s: string)
    ensures AllSpace(s[..SpaceRun(s)])
    ensures SpaceRun(s) < |s| ==> !IsSpace(s[SpaceRun(s)])
  {
    if s != [] && IsSpace(s[0]) {
      SpaceRunMaximal(s[1..]);
      assert s[..SpaceRun(s)] == [s[0]] + s[1..][..SpaceRun(s[1..])];
    }
  }

  /** Number of characters in the longest prefix of `s` made of `\S`: what a
      greedy `\S+` consumes at the start of `s`. */
  function TokenLen(s: string): (n: nat)
    ensures n <= |s|
  {
    if s == [] || IsSpace(s[0]) then 0 else 1 + TokenLen(s[1..])
  }

  /** The token found by `TokenLen` holds no whitespace and is maximal. */
  lemma {:induction false} TokenLenMaximal(s: string)
    ensures NoSpace(s[..TokenLen(s)])
    ensures TokenLen(s) < |s| ==> IsSpace(s[TokenLen(s)])
  {
    if s != [] && !IsSpace(s[0]) {
      TokenLenMaximal(s[1..]);
      assert s[..TokenLen(s)] == [s[0]] + s[1..][..TokenLen(s[1..])];
    }
  }

  /** A greedy run stops at the first character outside its class, so a run of
      word characters followed by a non-word character is measured exactly. */
  lemma {:induction false} WordRunOf(name: string, rest: string)
    requires AllWord(name)
    requires rest == [] || !IsWordChar(rest[0])
    ensures WordRun(name + rest) == |name|
  {
    if name != [] {
      assert (name + rest)[1..] == name[1..] + rest;
      WordRunOf(name[1..], rest);
    }
  }

  /** The same for a run of non-whitespace followed by whitespace. */
  lemma {:induction false} TokenLenOf(token: string, rest: string)
    requires NoSpace(token)
    requires rest == [] || IsSpace(rest[0])
    ensures TokenLen(token + rest) == |token|
  {
    if token != [] {
      assert (token + rest)[1..] == token[1..] + rest;
      TokenLenOf(token[1..], rest);
    }
  }

  // Sequence algebra, stated once so that proofs about the translators do not
  // have to rediscover it next to their recursive functions.

  lemma Assoc<T>(a: seq<T>, b: seq<T>, c: seq<T>)
    ensures a + b + c == a + (b + c)
  {
  }

  lemma SplitSlice<T>(s: seq<T>, i: nat, j: nat, k: nat)
    requires i <= j <= k <= |s|
    ensures s[i..k] == s[i..j] + s[j..k]
  {
  }

  lemma SplitSuffix<T>(s: seq<T>, i: nat, j: nat)
    requires i <= j <= |s|
    ensures s[i..] == s[i..j] + s[j..]
  {
  }

  lemma ConcatSlices<T>(a: seq<T>, b: seq<T>, n: nat)
    requires n <= |a|
    ensures (a + b)[..n] == a[..n]
    ensures (a + b)[n..] == a[n..] + b
  {
  }

  lemma ConsTail<T>(x: T, s: seq<T>)
    ensures ([x] + s)[1..] == s
    ensures [x] + s != []
  {
  }
}

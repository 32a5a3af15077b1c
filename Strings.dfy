/** The JavaScript string operations the scripts rely on, on `seq<char>`:
    whitespace, `trim`, `startsWith`/`endsWith`, `split`, `join`,
    `toLowerCase` (ASCII letters only) and the first line of a message. */
module Strings {
  import opened Wrappers

  /** JavaScript's `\s`: the WhiteSpace and LineTerminator code points of ECMAScript. */
  predicate IsSpace(c: char) {
    c == ' ' || c == '\t' || c == '\n' || c == '\r' || c == '\U{000B}' || c == '\U{000C}'
    || c == '\U{00A0}' || c == '\U{1680}' || ('\U{2000}' <= c <= '\U{200A}')
    || c == '\U{2028}' || c == '\U{2029}' || c == '\U{202F}' || c == '\U{205F}'
    || c == '\U{3000}' || c == '\U{FEFF}'
  }

  function TrimStart(s: string): (r: string)
    ensures |r| <= |s| && r == s[|s| - |r|..]
    ensures r == [] || !IsSpace(r[0])
    ensures forall i :: 0 <= i < |s| - |r| ==> IsSpace(s[i])
  {
    if s != [] && IsSpace(s[0]) then TrimStart(s[1..]) else s
  }

  lemma TrimStartSpace(c: char, s: string)
    requires IsSpace(c)
    ensures TrimStart([c] + s) == TrimStart(s)
  {
    assert ([c] + s)[1..] == s;
  }

  function TrimEnd(s: string): (r: string)
    ensures |r| <= |s| && r == s[..|r|]
    ensures r == [] || !IsSpace(r[|r| - 1])
    ensures forall i :: |r| <= i < |s| ==> IsSpace(s[i])
  {
    if s != [] && IsSpace(s[|s| - 1]) then TrimEnd(s[..|s| - 1]) else s
  }

  /** `String.prototype.trim`. */
  function Trim(s: string): (r: string)
    ensures r == [] || (!IsSpace(r[0]) && !IsSpace(r[|r| - 1]))
  {
    TrimEnd(TrimStart(s))
  }

  predicate StartsWith(s: string, prefix: string) {
    |prefix| <= |s| && s[..|prefix|] == prefix
  }

  predicate EndsWith(s: string, suffix: string) {
    |suffix| <= |s| && s[|s| - |suffix|..] == suffix
  }

  /** `sub` occurs in `s` starting at index `i`. */
  predicate OccursAt(s: string, sub: string, i: int) {
    0 <= i && i + |sub| <= |s| && s[i..i + |sub|] == sub
  }

  /** `s.includes(sub)`. */
  predicate Contains(s: string, sub: string) {
    exists i | 0 <= i <= |s| :: OccursAt(s, sub, i)
  }

  /** The first index at or after `from` where `sep` occurs in `s`. */
  function FindFrom(s: string, sep: string, from: nat): (r: Option<nat>)
    requires from <= |s|
    decreases |s| - from
    ensures r.Some? ==> from <= r.value && OccursAt(s, sep, r.value)
    ensures r.Some? ==> forall j :: from <= j < r.value ==> !OccursAt(s, sep, j)
    ensures r.None? ==> forall j :: from <= j ==> !OccursAt(s, sep, j)
  {
    if from + |sep| > |s| then None
    else if OccursAt(s, sep, from) then Some(from)
    else FindFrom(s, sep, from + 1)
  }

  function Find(s: string, sep: string): (r: Option<nat>)
    ensures r.Some? ==> OccursAt(s, sep, r.value)
    ensures r.Some? ==> forall j :: 0 <= j < r.value ==> !OccursAt(s, sep, j)
    ensures r.None? <==> !Contains(s, sep)
  {
    FindFrom(s, sep, 0)
  }

  /** `s.split(sep)` for a non-empty separator string. */
  function Split(s: string, sep: string): (r: seq<string>)
    requires sep != []
    decreases |s|
    ensures |r| >= 1
  {
    match Find(s, sep)
    case None => [s]
    case Some(i) => [s[..i]] + Split(s[i + |sep|..], sep)
  }

  /** `parts.join(sep)`. */
  function Join(parts: seq<string>, sep: string): string {
    if |parts| == 0 then []
    else if |parts| == 1 then parts[0]
    else parts[0] + sep + Join(parts[1..], sep)
  }

  lemma {:induction false} SplitJoinChar(parts: seq<string>, c: char)
    requires |parts| >= 1
    requires forall i :: 0 <= i < |parts| ==> c !in parts[i]
    ensures Split(Join(parts, [c]), [c]) == parts
  {
    if |parts| == 1 {
      NoCharNoFind(parts[0], c);
    } else {
      var rest := Join(parts[1..], [c]);
      var s := parts[0] + [c] + rest;
      FirstCharFind(parts[0], c, rest);
      assert s[|parts[0]| + 1..] == rest;
      assert s[..|parts[0]|] == parts[0];
      SplitJoinChar(parts[1..], c);
    }
  }

  /** Joining the parts of a split on a character gives the string back. */
  lemma {:induction false} JoinSplitChar(s: string, c: char)
    ensures Join(Split(s, [c]), [c]) == s
    decreases |s|
  {
    match Find(s, [c])
    case None =>
      assert Split(s, [c]) == [s];
    case Some(i) =>
      var rest := s[i + 1..];
      var parts := Split(s, [c]);
      JoinSplitChar(rest, c);
      assert parts == [s[..i]] + Split(rest, [c]);
      assert |parts| >= 2 && parts[1..] == Split(rest, [c]);
      assert Join(parts, [c]) == s[..i] + [c] + rest;
      assert s[i..i + 1] == [c];
      assert s == s[..i] + [c] + rest;
  }

  /** A one-character string occurs exactly when its character does. */
  lemma ContainsChar(s: string, c: char)
    ensures Contains(s, [c]) <==> c in s
  {
    if c in s {
      var i :| 0 <= i < |s| && s[i] == c;
      assert s[i..i + 1] == [c];
      assert OccursAt(s, [c], i);
    }
    if Contains(s, [c]) {
      var i :| 0 <= i <= |s| && OccursAt(s, [c], i);
      assert s[i] == s[i..i + 1][0];
    }
  }

  lemma NoCharNoFind(s: string, c: char)
    requires c !in s
    ensures Find(s, [c]).None?
  {
    forall j | 0 <= j < |s| ensures !OccursAt(s, [c], j) {
      assert s[j..j + 1] == [s[j]];
    }

  }

  lemma FirstCharFind(a: string, c: char, b: string)
    requires c !in a
    ensures Find(a + [c] + b, [c]) == Some(|a|)
  {
    var s := a + [c] + b;
    assert s[|a|..|a| + 1] == [c];
    assert OccursAt(s, [c], |a|);
    forall j | 0 <= j < |a| ensures !OccursAt(s, [c], j) {
      assert s[j..j + 1] == [a[j]];
    }

  }

  /** Occurrences of one character shift by one under a prepended character. */
  lemma OccursShift(c: char, s: string, sep: char, j: nat)
    requires 1 <= j
    ensures OccursAt([c] + s, [sep], j) <==> OccursAt(s, [sep], j - 1)
  {
    var t := [c] + s;
    if j + 1 <= |t| {
      assert t[j..j + 1] == s[j - 1..j];
    }
  }

  /** A character other than the separator moves its first occurrence one place on. */
  lemma FindCons(c: char, s: string, sep: char)
    requires c != sep
    ensures Find([c] + s, [sep]) == match Find(s, [sep]) case None => None case Some(i) => Some(i + 1)
  {
    var t := [c] + s;
    assert !OccursAt(t, [sep], 0) by { assert t[0..1] == [c]; }
    forall j | 1 <= j ensures OccursAt(t, [sep], j) <==> OccursAt(s, [sep], j - 1) {
      OccursShift(c, s, sep, j);
    }
    match Find(s, [sep])
    case None =>
      assert Find(t, [sep]).None?;
    case Some(i) =>
      assert OccursAt(t, [sep], i + 1);
  }

  lemma SplitCons(c: char, s: string, sep: char)
    requires c != sep
    ensures Split([c] + s, [sep]) == [[c] + Split(s, [sep])[0]] + Split(s, [sep])[1..]
  {
    var t := [c] + s;
    FindCons(c, s, sep);
    match Find(s, [sep])
    case None =>
    case Some(i) =>
      assert t[..i + 1] == [c] + s[..i];
      assert t[i + 2..] == s[i + 1..];
  }

  /** The text before the first line feed: `message.split('\n')[0]`. */
  function FirstLine(s: string): (r: string)
    ensures StartsWith(s, r) && '\n' !in r
    ensures |r| < |s| ==> s[|r|] == '\n'
  {
    if s == [] || s[0] == '\n' then [] else [s[0]] + FirstLine(s[1..])
  }

  lemma {:induction false} FirstLineIsFirstSplit(s: string)
    ensures FirstLine(s) == Split(s, "\n")[0]
  {
    var f := FirstLine(s);
    if |f| < |s| {
      FirstCharFind(f, '\n', s[|f| + 1..]);
      assert s == f + "\n" + s[|f| + 1..];
    } else {
      assert s == f;
      NoCharNoFind(s, '\n');
    }
  }

  predicate IsUpper(c: char) { 'A' <= c <= 'Z' }

  function LowerChar(c: char): (r: char)
    ensures !IsUpper(r)
  {
    if IsUpper(c) then (c as int + 32) as char else c
  }

  /** `toLowerCase`, on the ASCII letters. */
  function ToLower(s: string): (r: string)
    ensures |r| == |s|
    ensures forall i :: 0 <= i < |s| ==> r[i] == LowerChar(s[i])
  {
    if s == [] then [] else [LowerChar(s[0])] + ToLower(s[1..])
  }

  predicate IsLower(s: string) {
    forall i :: 0 <= i < |s| ==> !IsUpper(s[i])
  }
}

/**
 * The handful of JavaScript string operations the modelled code relies on:
 * `toUpperCase` (restricted to ASCII), `startsWith`, `split` on a literal
 * separator, and the inverse of `split`, `join`.
 */
module Strings {

  /** ASCII upper-casing of one character; every other character is left alone. */
  function UpperChar(c: char): char {
    if 'a' <= c <= 'z' then (c as int - 32) as char else c
  }

  /** `s.toUpperCase()`, restricted to ASCII letters. */
  function ToUpper(s: string): (r: string)
    ensures |r| == |s|
    ensures forall i :: 0 <= i < |s| ==> r[i] == UpperChar(s[i])
  {
    seq(|s|, i requires 0 <= i < |s| => UpperChar(s[i]))
  }

  /** Upper-casing twice is upper-casing once. */
  lemma ToUpperIdempotent(s: string)
    ensures ToUpper(ToUpper(s)) == ToUpper(s)
  {
  }

  /** `s.startsWith(prefix)`. */
  predicate StartsWith(s: string, prefix: string) {
    |prefix| <= |s| && s[..|prefix|] == prefix
  }

  /**
   * `s.split(sep)` for a non-empty literal separator: the pieces between
   * successive left-most, non-overlapping occurrences of `sep`.  Like the
   * JavaScript method, it always yields at least one piece (`"".split(sep)`
   * is `[""]`).
   */
  function Split(s: string, sep: string): (parts: seq<string>)
    requires |sep| > 0
    ensures |parts| >= 1
    decreases |s|
  {
    if |s| < |sep| then [s]
    else if s[..|sep|] == sep then [""] + Split(s[|sep|..], sep)
    else
      var rest := Split(s[1..], sep);
      [[s[0]] + rest[0]] + rest[1..]
  }

  /** `parts.join(sep)`. */
  function Join(parts: seq<string>, sep: string): string
    decreases |parts|
  {
    if |parts| == 0 then ""
    else if |parts| == 1 then parts[0]
    else parts[0] + sep + Join(parts[1..], sep)
  }

  /** Joining a non-empty list whose head gained a leading character. */
  lemma JoinConsHead(c: char, parts: seq<string>, sep: string)
    requires |parts| >= 1
    ensures Join([[c] + parts[0]] + parts[1..], sep) == [c] + Join(parts, sep)
  {
    var ps := [[c] + parts[0]] + parts[1..];
    assert ps[1..] == parts[1..];
  }

  /** `split` and `join` with the same separator are inverse: nothing of `s` is lost or invented. */
  lemma {:induction false} JoinSplit(s: string, sep: string)
    requires |sep| > 0
    ensures Join(Split(s, sep), sep) == s
    decreases |s|
  {
    if |s| < |sep| {
    } else if s[..|sep|] == sep {
      var rest := Split(s[|sep|..], sep);
      JoinSplit(s[|sep|..], sep);
      assert ([""] + rest)[1..] == rest;
      assert s == sep + s[|sep|..];
    } else {
      var rest := Split(s[1..], sep);
      JoinSplit(s[1..], sep);
      JoinConsHead(s[0], rest, sep);
      assert s == [s[0]] + s[1..];
    }
  }

  /** Splitting on a single character leaves no piece containing that character. */
  lemma {:induction false} SplitCharPiecesFree(s: string, c: char)
    ensures forall i :: 0 <= i < |Split(s, [c])| ==> c !in Split(s, [c])[i]
    decreases |s|
  {
    if |s| < 1 {
    } else if s[..1] == [c] {
      SplitCharPiecesFree(s[1..], c);
      var rest := Split(s[1..], [c]);
      assert Split(s, [c]) == [""] + rest;
    } else {
      SplitCharPiecesFree(s[1..], c);
      var rest := Split(s[1..], [c]);
      assert s[0] != c by { assert s[..1] == [s[0]]; }
      assert Split(s, [c]) == [[s[0]] + rest[0]] + rest[1..];
    }
  }

  /** `s` with every occurrence of `c` deleted. */
  function RemoveChar(s: string, c: char): (r: string)
    ensures c !in r
    ensures |r| <= |s|
    decreases |s|
  {
    if |s| == 0 then ""
    else if s[0] == c then RemoveChar(s[1..], c)
    else [s[0]] + RemoveChar(s[1..], c)
  }

  /** All pieces written one after the other, with no separator. */
  function Concat(parts: seq<string>): string
    decreases |parts|
  {
    if |parts| == 0 then "" else parts[0] + Concat(parts[1..])
  }

  lemma ConcatAppend(a: seq<string>, b: seq<string>)
    ensures Concat(a + b) == Concat(a) + Concat(b)
    decreases |a|
  {
    if |a| > 0 {
      assert (a + b)[1..] == a[1..] + b;
      ConcatAppend(a[1..], b);
    } else {
      assert a + b == b;
    }
  }

  /**
   * Splitting on a single character and gluing the pieces back together
   * without it gives the text with that character removed.
   */
  lemma {:induction false} ConcatSplitChar(s: string, c: char)
    ensures Concat(Split(s, [c])) == RemoveChar(s, c)
    decreases |s|
  {
    if |s| < 1 {
    } else if s[..1] == [c] {
      var rest := Split(s[1..], [c]);
      ConcatSplitChar(s[1..], c);
      assert s[0] == c;
      assert Split(s, [c]) == [""] + rest;
      ConcatAppend([""], rest);
    } else {
      var rest := Split(s[1..], [c]);
      ConcatSplitChar(s[1..], c);
      assert s[0] != c by { assert s[..1] == [s[0]]; }
      assert Split(s, [c]) == [[s[0]] + rest[0]] + rest[1..];
      ConcatAppend([[s[0]] + rest[0]], rest[1..]);
      ConcatAppend([rest[0]], rest[1..]);
      assert rest == [rest[0]] + rest[1..];
    }
  }

  /** Text without the separator's first character splits into itself alone. */
  lemma {:induction false} SplitWithoutSep(s: string, sep: string)
    requires |sep| > 0 && sep[0] !in s
    ensures Split(s, sep) == [s]
    decreases |s|
  {
    if |s| >= |sep| {
      assert s[..|sep|][0] == s[0] != sep[0];
      SplitWithoutSep(s[1..], sep);
      assert [s[0]] + s[1..] == s;
    }
  }

  /** A leading piece free of the separator's first character is split off at the first separator. */
  lemma {:induction false} SplitAtFirstSep(a: string, sep: string, b: string)
    requires |sep| > 0 && sep[0] !in a
    ensures Split(a + sep + b, sep) == [a] + Split(b, sep)
    decreases |a|
  {
    var s := a + sep + b;
    if |a| == 0 {
      assert s == sep + b;
      assert s[..|sep|] == sep;
      assert s[|sep|..] == b;
    } else {
      assert s[..|sep|][0] == a[0] != sep[0];
      SplitAtFirstSep(a[1..], sep, b);
      assert s[1..] == a[1..] + sep + b;
      assert [a[0]] + a[1..] == a;
    }
  }

  /**
   * `join` then `split` with the same separator gives the pieces back,
   * provided no piece contains the separator's first character: the
   * converse of `JoinSplit`.
   */
  lemma {:induction false} SplitJoin(parts: seq<string>, sep: string)
    requires |sep| > 0 && |parts| > 0
    requires forall i :: 0 <= i < |parts| ==> sep[0] !in parts[i]
    ensures Split(Join(parts, sep), sep) == parts
    decreases |parts|
  {
    if |parts| == 1 {
      SplitWithoutSep(parts[0], sep);
    } else {
      SplitJoin(parts[1..], sep);
      SplitAtFirstSep(parts[0], sep, Join(parts[1..], sep));
      assert [parts[0]] + parts[1..] == parts;
    }
  }
}

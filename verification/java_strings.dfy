/**
  The few java.lang.String operations the plugin relies on, written out so
  that the edge cases the Java library has (empty patterns, trailing empty
  pieces after a split, 32-bit wrap-around in hashCode) are part of the model.
  A Dafny `char` is a Unicode scalar value while a Java `char` is a UTF-16
  code unit: a character outside the Basic Multilingual Plane is one `char`
  here and two in Java. Splitting, trimming and the searches below only ever
  look for ASCII characters, which never occur inside a surrogate pair, so
  they agree with Java on every string; the hash does not (see `HashBits`).
 */
module JavaStrings {

  /** `s` begins with `p`. */
  predicate StartsWith(s: string, p: string) {
    |p| <= |s| && s[..|p|] == p
  }

  /** String.contains: `p` occurs somewhere in `s` (the empty string occurs everywhere). */
  predicate Contains(s: string, p: string)
    decreases |s|
  {
    StartsWith(s, p) || (s != [] && Contains(s[1..], p))
  }

  /** The position-based reading of `contains`: some window of `s` equals `p`. */
  predicate OccursAt(s: string, p: string, i: int) {
    0 <= i && i + |p| <= |s| && s[i..][..|p|] == p
  }

  /** `Contains` agrees with the position-based definition, in both directions. */
  lemma {:induction false} ContainsIffOccurs(s: string, p: string)
    ensures Contains(s, p) <==> exists i :: OccursAt(s, p, i)
    decreases |s|
  {
    if Contains(s, p) {
      if StartsWith(s, p) {
        assert s[0..] == s;
        assert OccursAt(s, p, 0);
      } else {
        ContainsIffOccurs(s[1..], p);
        var i :| OccursAt(s[1..], p, i);
        assert s[1..][i..] == s[i + 1..];
        assert OccursAt(s, p, i + 1);
      }
    }
    if exists i :: OccursAt(s, p, i) {
      var i :| OccursAt(s, p, i);
      if i == 0 {
        assert s[0..] == s;
      } else {
        assert s[1..][i - 1..] == s[i..];
        assert OccursAt(s[1..], p, i - 1);
        ContainsIffOccurs(s[1..], p);
      }
    }
  }

  /** Whoever contains `p + q` contains `p`. */
  lemma {:induction false} ContainsPrefixOfPattern(s: string, p: string, q: string)
    requires Contains(s, p + q)
    ensures Contains(s, p)
    decreases |s|
  {
    if StartsWith(s, p + q) {
      assert s[..|p|] == (p + q)[..|p|] == p;
    } else {
      ContainsPrefixOfPattern(s[1..], p, q);
    }
  }

  /**
    String.replace(target, replacement): every occurrence of `target`, found
    from left to right without overlap, is replaced. Java also accepts an
    empty target; the plugin never passes one.
   */
  function Replace(s: string, target: string, replacement: string): string
    requires target != []
    decreases |s|
  {
    if |s| < |target| then s
    else if s[..|target|] == target then replacement + Replace(s[|target|..], target, replacement)
    else [s[0]] + Replace(s[1..], target, replacement)
  }

  /** A string without an occurrence of the target comes back unchanged. */
  lemma {:induction false} ReplaceAbsent(s: string, target: string, replacement: string)
    requires target != [] && !Contains(s, target)
    ensures Replace(s, target, replacement) == s
    decreases |s|
  {
    if |s| >= |target| {
      assert !StartsWith(s, target);
      ReplaceAbsent(s[1..], target, replacement);
    }
  }

  /** Replacing by a string of the same length keeps the length. */
  lemma {:induction false} ReplaceKeepsLength(s: string, target: string, replacement: string)
    requires target != [] && |replacement| == |target|
    ensures |Replace(s, target, replacement)| == |s|
    decreases |s|
  {
    if |s| >= |target| {
      if s[..|target|] == target {
        ReplaceKeepsLength(s[|target|..], target, replacement);
      } else {
        ReplaceKeepsLength(s[1..], target, replacement);
      }
    }
  }

  /** A character found neither in `s` nor in the replacement is not in the result. */
  lemma {:induction false} ReplaceKeepsCharOut(s: string, target: string, replacement: string, c: char)
    requires target != [] && c !in s && c !in replacement
    ensures c !in Replace(s, target, replacement)
    decreases |s|
  {
    if |s| >= |target| {
      if s[..|target|] == target {
        assert forall k :: |target| <= k < |s| ==> s[k] == s[|target|..][k - |target|];
        ReplaceKeepsCharOut(s[|target|..], target, replacement, c);
      } else {
        ReplaceKeepsCharOut(s[1..], target, replacement, c);
      }
    }
  }

  /** Every character of `s` equals `sep`. */
  predicate AllSep(s: string, sep: char) {
    forall k :: 0 <= k < |s| ==> s[k] == sep
  }

  /** The pieces of `s` between occurrences of `sep`, empty pieces included. */
  function Split(s: string, sep: char): (parts: seq<string>)
    ensures |parts| >= 1
    ensures forall k :: 0 <= k < |parts| ==> sep !in parts[k]
    decreases |s|
  {
    if s == [] then [[]]
    else
      var rest := Split(s[1..], sep);
      if s[0] == sep then [[]] + rest
      else [[s[0]] + rest[0]] + rest[1..]
  }

  /** The inverse of `Split`: the pieces glued back with `sep`. */
  function Join(parts: seq<string>, sep: char): string
    requires |parts| >= 1
  {
    if |parts| == 1 then parts[0] else parts[0] + [sep] + Join(parts[1..], sep)
  }

  /** Splitting and joining gives the string back. */
  lemma {:induction false} JoinSplit(s: string, sep: char)
    ensures Join(Split(s, sep), sep) == s
    decreases |s|
  {
    if s != [] {
      var rest := Split(s[1..], sep);
      JoinSplit(s[1..], sep);
      if s[0] == sep {
        assert Split(s, sep)[1..] == rest;
      } else {
        var parts := Split(s, sep);
        if |rest| == 1 {
          assert parts == [[s[0]] + rest[0]];
        } else {
          assert parts[1..] == rest[1..];
          assert Join(rest, sep) == rest[0] + [sep] + Join(rest[1..], sep);
        }
      }
    }
  }

  /** Every piece of a split is empty exactly when the string is made only of separators. */
  lemma {:induction false} SplitAllEmpty(s: string, sep: char)
    ensures (forall k :: 0 <= k < |Split(s, sep)| ==> Split(s, sep)[k] == []) <==> AllSep(s, sep)
    decreases |s|
  {
    if s != [] {
      var rest := Split(s[1..], sep);
      SplitAllEmpty(s[1..], sep);
      if s[0] == sep {
        assert forall k :: 1 <= k < |s| ==> s[k] == s[1..][k - 1];
        assert AllSep(s[1..], sep) ==> AllSep(s, sep);
        assert Split(s, sep) == [[]] + rest;
        assert forall k :: 0 <= k < |rest| ==> rest[k] == Split(s, sep)[k + 1];
      } else {
        assert Split(s, sep)[0] != [];
      }
    }
  }

  /** Drops the empty strings at the end of a list, as String.split does. */
  function DropTrailingEmpty(parts: seq<string>): (r: seq<string>)
    ensures |r| <= |parts| && r == parts[..|r|]
    ensures forall k :: |r| <= k < |parts| ==> parts[k] == []
    ensures r != [] ==> r[|r| - 1] != []
  {
    if parts == [] then []
    else if parts[|parts| - 1] == [] then DropTrailingEmpty(parts[..|parts| - 1])
    else parts
  }

  /**
    String.split on a one-character literal pattern: with no separator in `s`
    the answer is `[s]` (even for the empty string); otherwise the pieces, less
    the trailing empty ones.
   */
  function JavaSplit(s: string, sep: char): seq<string> {
    if sep !in s then [s] else DropTrailingEmpty(Split(s, sep))
  }

  /** `JavaSplit` returns no piece at all exactly for a non-empty run of separators. */
  lemma JavaSplitEmpty(s: string, sep: char)
    ensures JavaSplit(s, sep) == [] <==> s != [] && AllSep(s, sep)
  {
    SplitAllEmpty(s, sep);
    if s != [] && AllSep(s, sep) {
      assert s[0] == sep;
      DropAllEmpty(Split(s, sep));
    }
  }

  /** A list of empty pieces is dropped whole. */
  lemma {:induction false} DropAllEmpty(parts: seq<string>)
    requires forall k :: 0 <= k < |parts| ==> parts[k] == []
    ensures DropTrailingEmpty(parts) == []
    decreases |parts|
  {
    if parts != [] {
      DropAllEmpty(parts[..|parts| - 1]);
    }
  }

  /** Joining two lists is joining each, with one separator between them. */
  lemma {:induction false} JoinAppend(a: seq<string>, b: seq<string>, sep: char)
    requires |a| >= 1 && |b| >= 1
    ensures Join(a + b, sep) == Join(a, sep) + [sep] + Join(b, sep)
    decreases |a|
  {
    if |a| == 1 {
      assert (a + b)[1..] == b;
    } else {
      JoinAppend(a[1..], b, sep);
      assert (a + b)[1..] == a[1..] + b;
    }
  }

  /** Joining empty pieces gives separators only. */
  lemma {:induction false} JoinEmptyPieces(parts: seq<string>, sep: char)
    requires |parts| >= 1 && forall k :: 0 <= k < |parts| ==> parts[k] == []
    ensures AllSep(Join(parts, sep), sep)
    decreases |parts|
  {
    if |parts| > 1 {
      JoinEmptyPieces(parts[1..], sep);
    }
  }

  /**
    `s` is `pre + last + tail` where `last` holds no separator, `tail` holds
    only separators and `pre` is empty or ends with a separator: `last` is
    the last piece of `s` between separators.
   */
  predicate EndsWithPiece(s: string, sep: char, pre: string, last: string, tail: string) {
    s == pre + last + tail && sep !in last && AllSep(tail, sep) && (pre == [] || pre[|pre| - 1] == sep)
  }

  /** The join of a non-empty prefix of the pieces ends with its last piece. */
  lemma JoinEndsWithLast(parts: seq<string>, sep: char)
    requires |parts| >= 1
    ensures parts == [parts[0]] ==> Join(parts, sep) == parts[0]
    ensures |parts| > 1 ==>
      Join(parts, sep) == Join(parts[..|parts| - 1], sep) + [sep] + parts[|parts| - 1]
  {
    if |parts| > 1 {
      JoinAppend(parts[..|parts| - 1], [parts[|parts| - 1]], sep);
      assert parts[..|parts| - 1] + [parts[|parts| - 1]] == parts;
    }
  }

  /** Joining more pieces that are all empty adds separators only. */
  lemma JoinEmptyTail(parts: seq<string>, n: nat, sep: char)
    requires 1 <= n < |parts|
    requires forall k :: n <= k < |parts| ==> parts[k] == []
    ensures Join(parts, sep) == Join(parts[..n], sep) + [sep] + Join(parts[n..], sep)
    ensures AllSep([sep] + Join(parts[n..], sep), sep)
  {
    JoinAppend(parts[..n], parts[n..], sep);
    assert parts[..n] + parts[n..] == parts;
    assert forall k :: 0 <= k < |parts[n..]| ==> parts[n..][k] == parts[n + k];
    JoinEmptyPieces(parts[n..], sep);
    var tail := [sep] + Join(parts[n..], sep);
    assert forall k :: 1 <= k < |tail| ==> tail[k] == Join(parts[n..], sep)[k - 1];
  }

  /**
    When every piece from the `n`-th on is empty, the join of the pieces ends
    with the piece `n - 1` followed by separators only.
   */
  lemma JoinLastPiece(parts: seq<string>, n: nat, sep: char, last: string)
    requires 1 <= n <= |parts| && last == parts[n - 1]
    requires forall k :: 0 <= k < |parts| ==> sep !in parts[k]
    requires forall k :: n <= k < |parts| ==> parts[k] == []
    ensures exists pre, tail :: EndsWithPiece(Join(parts, sep), sep, pre, last, tail)
  {
    var kept := parts[..n];
    JoinEndsWithLast(kept, sep);
    var pre: string := if n == 1 then [] else Join(kept[..n - 1], sep) + [sep];
    assert Join(kept, sep) == pre + parts[n - 1];
    var tail: string;
    if n < |parts| {
      JoinEmptyTail(parts, n, sep);
      tail := [sep] + Join(parts[n..], sep);
    } else {
      assert kept == parts;
      tail := [];
    }
    assert Join(parts, sep) == pre + parts[n - 1] + tail;
    assert EndsWithPiece(Join(parts, sep), sep, pre, parts[n - 1], tail);
  }

  /**
    The last piece `JavaSplit` keeps is the last piece of `s` between
    separators, and it is empty only for the empty string.
   */
  lemma JavaSplitLast(s: string, sep: char, last: string)
    requires var parts := JavaSplit(s, sep); parts != [] && last == parts[|parts| - 1]
    ensures exists pre, tail :: EndsWithPiece(s, sep, pre, last, tail)
    ensures last == [] ==> s == []
  {
    var parts := JavaSplit(s, sep);
    if sep !in s {
      assert s == [] + s + [];
      assert EndsWithPiece(s, sep, [], s, []);
    } else {
      var sp := Split(s, sep);
      JoinSplit(s, sep);
      assert last == sp[|parts| - 1];
      JoinLastPiece(sp, |parts|, sep, last);
    }
  }
  /** The index of the first character of `s` at or after `i` above the space. */
  function TrimStart(s: string, i: nat): (st: nat)
    requires i <= |s|
    ensures i <= st <= |s|
    ensures forall k :: i <= k < st ==> s[k] <= ' '
    ensures st < |s| ==> ' ' < s[st]
    decreases |s| - i
  {
    if i < |s| && s[i] <= ' ' then TrimStart(s, i + 1) else i
  }

  /** The end of `s[st..len]` once trailing characters at or below the space are cut. */
  function TrimEnd(s: string, st: nat, len: nat): (e: nat)
    requires st <= len <= |s|
    ensures st <= e <= len
    ensures forall k :: e <= k < len ==> s[k] <= ' '
    ensures st < e ==> ' ' < s[e - 1]
    decreases len
  {
    if st < len && s[len - 1] <= ' ' then TrimEnd(s, st, len - 1) else len
  }

  /** A piece `s[i..j]` is what String.trim keeps: everything cut is at or below the space. */
  predicate TrimmedPiece(s: string, i: int, j: int) {
    0 <= i <= j <= |s|
    && (forall k :: 0 <= k < i ==> s[k] <= ' ')
    && (forall k :: j <= k < |s| ==> s[k] <= ' ')
  }

  /**
    String.trim: removes every leading and trailing character whose code is
    at most that of the space.
   */
  function Trim(s: string): (r: string)
    ensures exists i, j :: TrimmedPiece(s, i, j) && r == s[i..j]
    ensures r != [] ==> ' ' < r[0] && ' ' < r[|r| - 1]
  {
    var st := TrimStart(s, 0);
    var e := TrimEnd(s, st, |s|);
    assert TrimmedPiece(s, st, e);
    s[st..e]
  }

  /** 2^32: Java's `int` arithmetic works modulo this. */
  const INT_RANGE: int := 0x1_0000_0000

  /** The bits of String.hashCode as an unsigned number: h = 31 * h + c, wrapping at 32 bits. */
  function HashBits(s: string): (h: nat)
    ensures h < INT_RANGE
  {
    if s == [] then 0
    else (31 * HashBits(s[..|s| - 1]) + s[|s| - 1] as int) % INT_RANGE
  }

  /** String.hashCode, read as a signed 32-bit `int`. */
  function HashCode(s: string): (h: int)
    ensures -0x8000_0000 <= h < 0x8000_0000
  {
    var u := HashBits(s);
    if u < 0x8000_0000 then u else u - INT_RANGE
  }

  /** Two strings with equal hash bits keep equal hash bits under any common suffix. */
  lemma {:induction false} HashBitsSuffix(a: string, b: string, c: string)
    requires HashBits(a) == HashBits(b)
    ensures HashBits(a + c) == HashBits(b + c)
    decreases |c|
  {
    if c != [] {
      var c' := c[..|c| - 1];
      HashBitsSuffix(a, b, c');
      assert (a + c)[..|a + c| - 1] == a + c';
      assert (b + c)[..|b + c| - 1] == b + c';
      assert (a + c)[|a + c| - 1] == c[|c| - 1] == (b + c)[|b + c| - 1];
    } else {
      assert a + c == a && b + c == b;
    }
  }
}

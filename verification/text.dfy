/**
 * The Rust string operations the parsers rely on: `char::is_whitespace`,
 * `str::trim`, `str::split` on a character, `join` and `split_once`.
 * Strings are sequences of Unicode scalar values.
 */
module Text {
  import opened Wrappers

  /** `char::is_whitespace`: the Unicode White_Space property. */
  predicate IsWhitespace(c: char) {
    || ('\t' <= c <= '\r')
    || c == ' '
    || c == '\U{0085}'
    || c == '\U{00A0}'
    || c == '\U{1680}'
    || ('\U{2000}' <= c <= '\U{200A}')
    || c == '\U{2028}'
    || c == '\U{2029}'
    || c == '\U{202F}'
    || c == '\U{205F}'
    || c == '\U{3000}'
  }

  /** Neither end of `s` is whitespace. */
  predicate Trimmed(s: string) {
    s == [] || (!IsWhitespace(s[0]) && !IsWhitespace(s[|s| - 1]))
  }

  /** `trim_start`: the suffix left after dropping leading whitespace. */
  function TrimStart(s: string): (r: string)
    ensures |r| <= |s| && r == s[|s| - |r|..]
    ensures forall k :: 0 <= k < |s| - |r| ==> IsWhitespace(s[k])
    ensures r == [] || !IsWhitespace(r[0])
    decreases |s|
  {
    if |s| > 0 && IsWhitespace(s[0]) then TrimStart(s[1..]) else s
  }

  /** `trim_end`: the prefix left after dropping trailing whitespace. */
  function TrimEnd(s: string): (r: string)
    ensures |r| <= |s| && r == s[..|r|]
    ensures forall k :: |r| <= k < |s| ==> IsWhitespace(s[k])
    ensures r == [] || !IsWhitespace(r[|r| - 1])
    decreases |s|
  {
    if |s| > 0 && IsWhitespace(s[|s| - 1]) then TrimEnd(s[..|s| - 1]) else s
  }

  /** `trim`: a slice of `s` with only whitespace around it and none at its ends. */
  function Trim(s: string): (r: string)
    ensures Trimmed(r)
    ensures |r| <= |s|
  {
    TrimEnd(TrimStart(s))
  }

  /** Whatever character follows the leading whitespace survives `trim_start`. */
  lemma TrimStartKeepsAt(s: string, i: nat)
    requires i < |s| && !IsWhitespace(s[i])
    ensures s[i] in TrimStart(s)
  {
    var t := TrimStart(s);
    var d := |s| - |t|;
    assert i >= d;
    assert t[i - d] == s[i];
  }

  lemma TrimStartKeeps(s: string, c: char)
    requires !IsWhitespace(c)
    ensures c in TrimStart(s) <==> c in s
  {
    if c in s {
      var i :| 0 <= i < |s| && s[i] == c;
      TrimStartKeepsAt(s, i);
    }
    var t := TrimStart(s);
    if c in t {
      var j :| 0 <= j < |t| && t[j] == c;
      SuffixKeeps(s, t, j);
    }
  }

  /** Every character of a suffix occurs in the whole. */
  lemma SuffixKeeps(s: string, t: string, j: nat)
    requires |t| <= |s| && t == s[|s| - |t|..] && j < |t|
    ensures t[j] in s
  {
    assert s[|s| - |t| + j] == t[j];
  }

  lemma TrimEndKeeps(s: string, c: char)
    requires !IsWhitespace(c)
    ensures c in TrimEnd(s) <==> c in s
  {
    var t := TrimEnd(s);
    if c in s {
      var i :| 0 <= i < |s| && s[i] == c;
      assert i < |t|;
      assert t[i] == c;
    }
    if c in t {
      var j :| 0 <= j < |t| && t[j] == c;
      assert s[j] == c;
    }
  }

  /** Trimming keeps every character that is not whitespace. */
  lemma TrimKeeps(s: string, c: char)
    requires !IsWhitespace(c)
    ensures c in Trim(s) <==> c in s
  {
    TrimStartKeeps(s, c);
    TrimEndKeeps(TrimStart(s), c);
  }

  /** A string with no whitespace at its ends is its own trim. */
  lemma TrimOfTrimmed(s: string)
    requires Trimmed(s)
    ensures Trim(s) == s
  {
  }

  /** The index of the first `c` in `s`. */
  function FirstIndex(s: string, c: char): (i: nat)
    requires c in s
    ensures i < |s| && s[i] == c && c !in s[..i]
    decreases |s|
  {
    if s[0] == c then 0 else FirstIndex(s[1..], c) + 1
  }

  /** `s.split(c)`: the pieces between occurrences of `c`, always at least one. */
  function Split(s: string, c: char): (parts: seq<string>)
    ensures |parts| >= 1
    ensures forall i :: 0 <= i < |parts| ==> c !in parts[i]
    decreases |s|
  {
    if c !in s then [s]
    else
      var i := FirstIndex(s, c);
      [s[..i]] + Split(s[i + 1..], c)
  }

  /** `parts.join(sep)` (and `concat` when `sep` is empty). */
  function Join<T>(parts: seq<seq<T>>, sep: seq<T>): seq<T>
    decreases |parts|
  {
    if |parts| == 0 then []
    else if |parts| == 1 then parts[0]
    else parts[0] + sep + Join(parts[1..], sep)
  }

  /** Joining the pieces of a split with the separator restores the string. */
  lemma {:induction false} JoinSplit(s: string, c: char)
    ensures Join(Split(s, c), [c]) == s
    decreases |s|
  {
    if c in s {
      var i := FirstIndex(s, c);
      var rest := Split(s[i + 1..], c);
      assert Split(s, c) == [s[..i]] + rest;
      JoinCons(s[..i], rest, [c]);
      JoinSplit(s[i + 1..], c);
      assert s == s[..i] + [c] + s[i + 1..];
    }
  }

  /** Splitting a join of pieces free of the separator gives the pieces back. */
  lemma {:induction false} SplitJoin(parts: seq<string>, c: char)
    requires |parts| >= 1
    requires forall i :: 0 <= i < |parts| ==> c !in parts[i]
    ensures Split(Join(parts, [c]), c) == parts
    decreases |parts|
  {
    if |parts| > 1 {
      var rest := Join(parts[1..], [c]);
      var s := parts[0] + [c] + rest;
      assert s[|parts[0]|] == c;
      assert s[..|parts[0]|] == parts[0];
      var i := FirstIndex(s, c);
      assert i == |parts[0]|;
      assert s[i + 1..] == rest;
      SplitJoin(parts[1..], c);
    }
  }

  /** `s` with every `c` removed. */
  function Remove(s: string, c: char): (r: string)
    ensures c !in r && |r| <= |s|
    decreases |s|
  {
    if s == [] then []
    else (if s[0] == c then [] else [s[0]]) + Remove(s[1..], c)
  }

  /** Joining a first piece in front of the rest. */
  lemma JoinCons<T>(first: seq<T>, rest: seq<seq<T>>, sep: seq<T>)
    ensures Join([first] + rest, sep) == if rest == [] then first else first + sep + Join(rest, sep)
  {
    assert ([first] + rest)[1..] == rest;
  }

  /** A join of non-empty pieces starts with the first piece's first element and ends with the last piece's last. */
  lemma {:induction false} JoinEnds<T>(parts: seq<seq<T>>, sep: seq<T>)
    requires |parts| >= 1 && forall i :: 0 <= i < |parts| ==> |parts[i]| >= 1
    ensures var j := Join(parts, sep);
            |j| >= 1 && j[0] == parts[0][0] && j[|j| - 1] == parts[|parts| - 1][|parts[|parts| - 1]| - 1]
    decreases |parts|
  {
    if |parts| > 1 {
      var rest := parts[1..];
      JoinEnds(rest, sep);
      JoinCons(parts[0], rest, sep);
      assert parts == [parts[0]] + rest;
      var j, tail := Join(parts, sep), Join(rest, sep);
      assert j == parts[0] + sep + tail;
      assert j[0] == parts[0][0];
      assert j[|j| - 1] == tail[|tail| - 1];
      assert rest[|rest| - 1] == parts[|parts| - 1];
    }
  }

  /** An element in no piece and not in the separator is not in the join. */
  lemma {:induction false} JoinChars<T>(parts: seq<seq<T>>, sep: seq<T>, c: T)
    requires c !in sep && forall i :: 0 <= i < |parts| ==> c !in parts[i]
    ensures c !in Join(parts, sep)
    decreases |parts|
  {
    if |parts| > 1 {
      var rest := parts[1..];
      JoinChars(rest, sep, c);
      JoinCons(parts[0], rest, sep);
      assert parts == [parts[0]] + rest;
    }
  }

  /** The text around the first separator, and the split that follows from it. */
  lemma SplitAt(s: string, c: char) returns (head: string, tail: string)
    requires c in s
    ensures s == head + [c] + tail && c !in head && |tail| < |s|
    ensures Split(s, c) == [head] + Split(tail, c)
  {
    var i := FirstIndex(s, c);
    head, tail := s[..i], s[i + 1..];
    assert s == head + [c] + tail;
  }

  lemma RemoveLeading(c: char, tail: string)
    ensures Remove([c] + tail, c) == Remove(tail, c)
  {
    assert ([c] + tail)[1..] == tail;
  }

  /** Removing from a separator-free head, the separator, and a tail. */
  lemma RemoveAround(head: string, c: char, tail: string)
    requires c !in head
    ensures Remove(head + [c] + tail, c) == head + Remove(tail, c)
  {
    var sepTail := [c] + tail;
    assert head + [c] + tail == head + sepTail;
    RemoveAppend(head, sepTail, c);
    RemoveAbsent(head, c);
    RemoveLeading(c, tail);
  }

  /** Joining with no separator: the first piece, then the rest. */
  lemma ConcatCons(first: string, rest: seq<string>)
    requires rest != []
    ensures Join([first] + rest, []) == first + Join(rest, [])
  {
    JoinCons(first, rest, []);
    assert first + [] == first;
  }

  /** Collecting the pieces of a split into one string removes the separator and nothing else. */
  lemma {:induction false} ConcatSplit(s: string, c: char)
    ensures Join(Split(s, c), []) == Remove(s, c)
    decreases |s|
  {
    if c !in s {
      RemoveAbsent(s, c);
    } else {
      var head, tail := SplitAt(s, c);
      ConcatSplit(tail, c);
      ConcatCons(head, Split(tail, c));
      RemoveAround(head, c, tail);
    }
  }

  lemma {:induction false} RemoveAbsent(s: string, c: char)
    requires c !in s
    ensures Remove(s, c) == s
    decreases |s|
  {
    if s != [] {
      RemoveAbsent(s[1..], c);
    }
  }

  lemma {:induction false} RemoveAppend(s: string, t: string, c: char)
    ensures Remove(s + t, c) == Remove(s, c) + Remove(t, c)
    decreases |s|
  {
    if s != [] {
      assert (s + t)[1..] == s[1..] + t;
      RemoveAppend(s[1..], t, c);
    } else {
      assert s + t == t;
    }
  }

  /** `split_once(c)`: the text before and after the first `c`, if there is one. */
  function SplitOnce(s: string, c: char): (r: Option<(string, string)>)
    ensures r.Some? <==> c in s
    ensures r.Some? ==> s == r.value.0 + [c] + r.value.1 && c !in r.value.0
  {
    if c in s then
      var i := FirstIndex(s, c);
      assert s == s[..i] + [c] + s[i + 1..];
      Some((s[..i], s[i + 1..]))
    else None
  }
}

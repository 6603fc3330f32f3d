/**
 * The string operations the recipe script relies on: `trim`, `toLowerCase`,
 * `includes`, `split(',')` and `join(', ')`.  Whitespace and case are the
 * ASCII ones.
 */
module Text {

  /** The ASCII whitespace characters `trim` removes. */
  predicate IsSpace(c: char) {
    c == ' ' || c == '\t' || c == '\n' || c == '\r' || c == '\U{B}' || c == '\U{C}'
  }

  predicate AllSpace(s: string) {
    forall i :: 0 <= i < |s| ==> IsSpace(s[i])
  }

  /** Neither end of `s` is whitespace. */
  predicate IsTrimmed(s: string) {
    s == [] || (!IsSpace(s[0]) && !IsSpace(s[|s| - 1]))
  }

  /** How many whitespace characters `s` starts with. */
  function LeadingSpace(s: string): (n: nat)
    ensures n <= |s|
    ensures forall i :: 0 <= i < n ==> IsSpace(s[i])
    ensures n < |s| ==> !IsSpace(s[n])
  {
    if |s| > 0 && IsSpace(s[0]) then
      var m := LeadingSpace(s[1..]);
      assert forall i :: 1 <= i <= m ==> s[i] == s[1..][i - 1];
      1 + m
    else 0
  }

  /** How many whitespace characters `s` ends with. */
  function TrailingSpace(s: string): (n: nat)
    ensures n <= |s|
    ensures forall i :: |s| - n <= i < |s| ==> IsSpace(s[i])
    ensures n < |s| ==> !IsSpace(s[|s| - n - 1])
  {
    if |s| > 0 && IsSpace(s[|s| - 1]) then
      var m := TrailingSpace(s[..|s| - 1]);
      assert forall i :: |s| - 1 - m <= i < |s| - 1 ==> s[i] == s[..|s| - 1][i];
      1 + m
    else 0
  }

  /** `String.prototype.trim` on ASCII whitespace: drops the whitespace at both ends. */
  function Trim(s: string): (r: string)
    ensures IsTrimmed(r)
    ensures r == [] <==> AllSpace(s)
    ensures IsTrimmed(s) ==> r == s
  {
    var t := s[LeadingSpace(s)..];
    var r := t[..|t| - TrailingSpace(t)];
    r
  }

  /** `Trim` keeps exactly the middle of `s`: what it drops at either end is whitespace and nothing else. */
  lemma TrimIsMiddle(s: string)
    ensures exists i, j :: 0 <= i <= j <= |s| && Trim(s) == s[i..j] && AllSpace(s[..i]) && AllSpace(s[j..])
  {
    var i := LeadingSpace(s);
    var t := s[i..];
    var j := i + |t| - TrailingSpace(t);
    assert Trim(s) == s[i..j];
    assert AllSpace(s[j..]) by {
      forall k | 0 <= k < |s[j..]|
        ensures IsSpace(s[j..][k])
      {
        assert s[j..][k] == t[j - i + k];
      }
    }
  }

  /** Trimming only removes characters, so a character absent from `s` is absent from `Trim(s)`. */
  lemma TrimIntroducesNothing(s: string, c: char)
    requires c !in s
    ensures c !in Trim(s)
  {
    var t := s[LeadingSpace(s)..];
    assert Trim(s) == t[..|t| - TrailingSpace(t)];
  }

  /** Whitespace in front of a trimmed, non-empty string is all that `Trim` removes. */
  lemma TrimAfterLead(lead: string, x: string)
    requires AllSpace(lead)
    requires x != [] && IsTrimmed(x)
    ensures Trim(lead + x) == x
  {
    var s := lead + x;
    var n := LeadingSpace(s);
    assert s[|lead|] == x[0];
    assert n == |lead|;
    assert s[n..] == x;
    assert TrailingSpace(x) == 0 by {
      assert x[|x| - 1] == x[|x| - 0 - 1];
    }
  }

  function LowerChar(c: char): char {
    if 'A' <= c <= 'Z' then (c as int + 32) as char else c
  }

  /** `String.prototype.toLowerCase` on ASCII letters. */
  function ToLower(s: string): (r: string)
    ensures |r| == |s|
    ensures forall i :: 0 <= i < |s| ==> r[i] == LowerChar(s[i])
  {
    if s == [] then [] else [LowerChar(s[0])] + ToLower(s[1..])
  }

  lemma ToLowerIdempotent(s: string)
    ensures ToLower(ToLower(s)) == ToLower(s)
  {
  }

  /** Lowering touches letters only, so it keeps a whitespace-only string whitespace-only. */
  lemma ToLowerKeepsSpace(s: string)
    requires AllSpace(s)
    ensures AllSpace(ToLower(s))
  {
  }

  /** `needle` sits in `hay` starting at offset `i`. */
  predicate OccursAt(hay: string, needle: string, i: int) {
    0 <= i <= |hay| - |needle| && hay[i..i + |needle|] == needle
  }

  /** `String.prototype.includes`: `needle` occurs in `hay` at some offset. */
  function Contains(hay: string, needle: string): (b: bool)
    ensures b <==> exists i :: OccursAt(hay, needle, i)
    decreases |hay|
  {
    if |needle| > |hay| then false
    else if needle <= hay then
      assert OccursAt(hay, needle, 0);
      true
    else
      var b := Contains(hay[1..], needle);
      assert forall i :: OccursAt(hay, needle, i) <==> i >= 1 && OccursAt(hay[1..], needle, i - 1) by {
        forall i | 1 <= i <= |hay| - |needle|
          ensures OccursAt(hay, needle, i) <==> OccursAt(hay[1..], needle, i - 1)
        {
          var here, there := hay[i..i + |needle|], hay[1..][i - 1..i - 1 + |needle|];
          assert forall k :: 0 <= k < |here| ==> here[k] == there[k];
          assert here == there;
        }
      }
      assert b ==> exists i :: OccursAt(hay, needle, i) by {
        if b {
          var j :| OccursAt(hay[1..], needle, j);
          assert OccursAt(hay, needle, j + 1);
        }
      }
      b
  }

  /** `s.split(sep)`: the pieces between separators, at least one of them. */
  function Split(s: string, sep: char): (parts: seq<string>)
    ensures |parts| >= 1
    ensures forall i :: 0 <= i < |parts| ==> sep !in parts[i]
  {
    if s == [] then [[]]
    else
      var rest := Split(s[1..], sep);
      if s[0] == sep then [[]] + rest
      else [[s[0]] + rest[0]] + rest[1..]
  }

  /** `parts.join(sep)`. */
  function Join(parts: seq<string>, sep: string): string {
    if |parts| == 0 then []
    else if |parts| == 1 then parts[0]
    else parts[0] + sep + Join(parts[1..], sep)
  }

  /** Splitting and joining with the same separator is the identity on text. */
  lemma {:induction false} JoinSplit(s: string, sep: char)
    ensures Join(Split(s, sep), [sep]) == s
  {
    if s != [] {
      var rest := Split(s[1..], sep);
      JoinSplit(s[1..], sep);
      if s[0] != sep {
        if |rest| > 1 {
          assert Join(Split(s, sep), [sep]) == [s[0]] + rest[0] + [sep] + Join(rest[1..], [sep]);
        }
      }
    }
  }

  /** A piece free of the separator followed by the separator splits off as the first piece. */
  lemma {:induction false} SplitAtFirst(a: string, sep: char, b: string)
    requires sep !in a
    ensures Split(a + [sep] + b, sep) == [a] + Split(b, sep)
  {
    if a == [] {
      assert (a + [sep] + b)[1..] == b;
    } else {
      assert (a + [sep] + b)[1..] == a[1..] + [sep] + b;
      SplitAtFirst(a[1..], sep, b);
      assert [a[0]] + a[1..] == a;
    }
  }

  /** Text without the separator is a single piece. */
  lemma {:induction false} SplitNoSep(a: string, sep: char)
    requires sep !in a
    ensures Split(a, sep) == [a]
  {
    if a != [] {
      SplitNoSep(a[1..], sep);
      assert [a[0]] + a[1..] == a;
    }
  }

  /** Splitting the joined pieces gives them back when none holds the separator. */
  lemma {:induction false} SplitJoin(parts: seq<string>, sep: char)
    requires |parts| >= 1
    requires forall i :: 0 <= i < |parts| ==> sep !in parts[i]
    ensures Split(Join(parts, [sep]), sep) == parts
  {
    if |parts| == 1 {
      SplitNoSep(parts[0], sep);
    } else {
      SplitJoin(parts[1..], sep);
      SplitAtFirst(parts[0], sep, Join(parts[1..], [sep]));
    }
  }
}

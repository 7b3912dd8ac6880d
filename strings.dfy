/**
 * The few QString operations the core relies on: split on one character
 * (empty parts kept, as Qt does by default), the last part of a split,
 * trimmed() and the whitespace test behind it.
 */
module Strings {

  /** Number of occurrences of `c` in `s`. */
  function Count(s: string, c: char): nat
  {
    if s == [] then 0 else (if s[0] == c then 1 else 0) + Count(s[1..], c)
  }

  lemma {:induction false} CountZero(s: string, c: char)
    ensures Count(s, c) == 0 <==> c !in s
  {
    if s != [] {
      CountZero(s[1..], c);
      assert s == [s[0]] + s[1..];
    }
  }

  /**
   * `s.split(sep)`: the maximal runs between separators, empty ones
   * included, so there is always one part more than there are separators.
   */
  function Split(s: string, sep: char): (parts: seq<string>)
    ensures |parts| == Count(s, sep) + 1
    ensures forall i :: 0 <= i < |parts| ==> sep !in parts[i]
    decreases |s|
  {
    if s == [] then [""]
    else
      var rest := Split(s[1..], sep);
      if s[0] == sep then [""] + rest
      else [[s[0]] + rest[0]] + rest[1..]
  }

  /** `parts.join(sep)`: the inverse of Split. */
  function Join(parts: seq<string>, sep: char): string
  {
    if parts == [] then ""
    else if |parts| == 1 then parts[0]
    else parts[0] + [sep] + Join(parts[1..], sep)
  }

  lemma {:induction false} JoinSplit(s: string, sep: char)
    ensures Join(Split(s, sep), sep) == s
  {
    if s != [] {
      JoinSplit(s[1..], sep);
      var rest := Split(s[1..], sep);
      if s[0] == sep {
        assert Split(s, sep) == [""] + rest;
        assert ([""] + rest)[1..] == rest;
      } else {
        var head := [s[0]] + rest[0];
        assert Split(s, sep) == [head] + rest[1..];
        if |rest| == 1 {
          assert Join(rest, sep) == rest[0];
        } else {
          assert Join(rest, sep) == rest[0] + [sep] + Join(rest[1..], sep);
          assert ([head] + rest[1..])[1..] == rest[1..];
        }
      }
    }
  }

  /** Splitting a text that holds no separator gives the text back as the one part. */
  lemma {:induction false} SplitNoSeparator(a: string, sep: char)
    requires sep !in a
    ensures Split(a, sep) == [a]
  {
    if a != [] {
      SplitNoSeparator(a[1..], sep);
      assert [a[0]] + a[1..] == a;
    }
  }

  /** A separator after a separator-free prefix ends the first part there. */
  lemma {:induction false} SplitAfterPrefix(a: string, b: string, sep: char)
    requires sep !in a
    ensures Split(a + [sep] + b, sep) == [a] + Split(b, sep)
    decreases |a|
  {
    if a == [] {
      assert a + [sep] + b == [sep] + b;
      assert ([sep] + b)[1..] == b;
    } else {
      var s := a + [sep] + b;
      assert s[1..] == a[1..] + [sep] + b;
      SplitAfterPrefix(a[1..], b, sep);
      assert [a[0]] + a[1..] == a;
    }
  }

  lemma {:induction false} SplitJoin(parts: seq<string>, sep: char)
    requires |parts| >= 1
    requires forall i :: 0 <= i < |parts| ==> sep !in parts[i]
    ensures Split(Join(parts, sep), sep) == parts
  {
    if |parts| == 1 {
      SplitNoSeparator(parts[0], sep);
    } else {
      SplitJoin(parts[1..], sep);
      SplitAfterPrefix(parts[0], Join(parts[1..], sep), sep);
      assert [parts[0]] + parts[1..] == parts;
    }
  }

  /** A text with exactly one separator splits into the text before it and the text after it. */
  lemma SplitOneSeparator(s: string, sep: char)
    requires Count(s, sep) == 1
    ensures var p := Split(s, sep);
      |p| == 2 && |p[0]| < |s| && s[|p[0]|] == sep &&
      p[0] == s[..|p[0]|] && p[1] == s[|p[0]| + 1..]
  {
    var p := Split(s, sep);
    JoinSplit(s, sep);
    assert Join(p[1..], sep) == p[1];
    assert s == p[0] + [sep] + p[1];
  }

  /** `s.split(sep).last()`. */
  function LastPart(s: string, sep: char): string
  {
    var p := Split(s, sep);
    p[|p| - 1]
  }

  /**
   * The last part is the longest separator-free end of `s`: either all of
   * `s`, or what follows the last separator.
   */
  lemma {:induction false} LastPartIsFinalSegment(s: string, sep: char)
    ensures var r := LastPart(s, sep);
      |r| <= |s| && r == s[|s| - |r|..] && sep !in r &&
      (|r| == |s| || s[|s| - |r| - 1] == sep)
  {
    if s != [] {
      LastPartIsFinalSegment(s[1..], sep);
      var rest := Split(s[1..], sep);
      var r' := rest[|rest| - 1];
      if s[0] != sep && |rest| == 1 {
        CountZero(s[1..], sep);
        assert r' == s[1..] by {
          if |r'| < |s[1..]| {
            assert false;
          }
        }
        assert LastPart(s, sep) == [s[0]] + r';
        assert [s[0]] + s[1..] == s;
      } else {
        assert LastPart(s, sep) == r';
        if |r'| == |s[1..]| {
          if s[0] != sep {
            CountZero(s[1..], sep);
            assert false;
          }
          assert s[|s| - |r'| - 1] == s[0];
        }
      }
    }
  }

  /** Whatever precedes the last separator does not change the last part. */
  lemma {:induction false} LastPartAfterSeparator(x: string, n: string, sep: char)
    requires sep !in n
    ensures LastPart(x + [sep] + n, sep) == n
    decreases |x|
  {
    var s := x + [sep] + n;
    if x == [] {
      assert s == [sep] + n && s[1..] == n;
      SplitNoSeparator(n, sep);
    } else {
      assert s[1..] == x[1..] + [sep] + n;
      LastPartAfterSeparator(x[1..], n, sep);
      var rest := Split(s[1..], sep);
      if s[0] != sep {
        assert s[1..][|x| - 1] == sep;
        CountZero(s[1..], sep);
        assert |rest| >= 2;
      }
    }
  }

  /** QChar::isSpace: the separator characters and the control characters 9 to 13, 0x85. */
  predicate IsSpace(c: char)
  {
    c == ' ' || ('\t' <= c <= '\r') || c == '\U{85}' || c == '\U{A0}' || c == '\U{1680}' ||
    ('\U{2000}' <= c <= '\U{200A}') || c == '\U{2028}' || c == '\U{2029}' ||
    c == '\U{202F}' || c == '\U{205F}' || c == '\U{3000}'
  }

  /** `s` with its leading whitespace removed. */
  function TrimStart(s: string): (r: string)
    ensures |r| <= |s| && r == s[|s| - |r|..]
    ensures forall i :: 0 <= i < |s| - |r| ==> IsSpace(s[i])
    ensures r != [] ==> !IsSpace(r[0])
  {
    if s != [] && IsSpace(s[0]) then TrimStart(s[1..]) else s
  }

  /** `s` with its trailing whitespace removed. */
  function TrimEnd(s: string): (r: string)
    ensures |r| <= |s| && r == s[..|r|]
    ensures forall i :: |r| <= i < |s| ==> IsSpace(s[i])
    ensures r != [] ==> !IsSpace(r[|r| - 1])
  {
    if s != [] && IsSpace(s[|s| - 1]) then TrimEnd(s[..|s| - 1]) else s
  }

  /** `s.trimmed()`. */
  function Trim(s: string): (r: string)
    ensures r != [] ==> !IsSpace(r[0]) && !IsSpace(r[|r| - 1])
    ensures (forall i :: 0 <= i < |s| ==> !IsSpace(s[i])) ==> r == s
    ensures (forall i :: 0 <= i < |s| ==> IsSpace(s[i])) ==> r == []
  {
    var t := TrimStart(s);
    assert t != [] ==> t[0] == s[|s| - |t|];
    TrimEnd(t)
  }

  /**
   * The trimmed text is a contiguous piece of `s` with only whitespace
   * before it and after it; `i` is where it starts.
   */
  lemma TrimIsInfix(s: string) returns (i: nat)
    ensures i + |Trim(s)| <= |s| && Trim(s) == s[i..i + |Trim(s)|]
    ensures forall k :: 0 <= k < i ==> IsSpace(s[k])
    ensures forall k :: i + |Trim(s)| <= k < |s| ==> IsSpace(s[k])
  {
    var t := TrimStart(s);
    var r := TrimEnd(t);
    i := |s| - |t|;
    assert t == s[i..];
    assert r == t[..|r|] == s[i..i + |r|];
    forall k | i + |r| <= k < |s|
      ensures IsSpace(s[k])
    {
      assert s[k] == t[k - i];
    }
  }
}

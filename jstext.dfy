/**
 * The JavaScript string operations the telemetry pipeline is built from:
 * `String.prototype.split` with a one-character separator and
 * `String.prototype.trim`, on strings as sequences of characters.
 */
module JsText {

  /** The characters `trim` strips: ECMAScript WhiteSpace (TAB, VT, FF, ZWNBSP and
      every Space_Separator) and LineTerminator (LF, CR, LS, PS). */
  predicate IsWhitespace(c: char) {
    c == '\t' || c == '\n' || c == '\U{000B}' || c == '\U{000C}' || c == '\r'
    || c == ' ' || c == '\U{00A0}' || c == '\U{1680}'
    || ('\U{2000}' <= c <= '\U{200A}')
    || c == '\U{2028}' || c == '\U{2029}' || c == '\U{202F}' || c == '\U{205F}'
    || c == '\U{3000}' || c == '\U{FEFF}'
  }

  /** Every character of `s` satisfies `p`. */
  predicate All(s: string, p: char -> bool) {
    forall i :: 0 <= i < |s| ==> p(s[i])
  }

  /** Every character of `s` is whitespace (the empty string included). */
  predicate IsBlank(s: string) {
    All(s, IsWhitespace)
  }

  /** `s` without the leading characters that satisfy `p`. */
  function DropLeading(s: string, p: char -> bool): (r: string)
    ensures |r| <= |s| && r == s[|s| - |r|..]
    ensures r == [] || !p(r[0])
    ensures All(s[..|s| - |r|], p)
  {
    if |s| > 0 && p(s[0]) then
      var r := DropLeading(s[1..], p);
      assert s[..|s| - |r|] == [s[0]] + s[1..][..|s| - 1 - |r|];
      r
    else s
  }

  /** `s` without the trailing characters that satisfy `p`. */
  function DropTrailing(s: string, p: char -> bool): (r: string)
    ensures |r| <= |s| && r == s[..|r|]
    ensures r == [] || !p(r[|r| - 1])
    ensures All(s[|r|..], p)
  {
    if |s| > 0 && p(s[|s| - 1]) then
      var r := DropTrailing(s[..|s| - 1], p);
      assert s[|r|..] == s[..|s| - 1][|r|..] + [s[|s| - 1]];
      r
    else s
  }

  /** `s` without its leading and trailing characters that satisfy `p`: the slice
      between a prefix and a suffix made of such characters. */
  function Strip(s: string, p: char -> bool): (r: string)
    ensures r == [] || (!p(r[0]) && !p(r[|r| - 1]))
    ensures r == [] <==> All(s, p)
    ensures exists a, b :: 0 <= a <= b <= |s| && r == s[a..b] && All(s[..a], p) && All(s[b..], p)
  {
    var front := DropLeading(s, p);
    var r := DropTrailing(front, p);
    SliceBetween(s, front, r, p);
    r
  }

  /** A suffix `front` of `s` after a prefix satisfying `p`, cut down to a prefix
      `r` before a suffix satisfying `p`, is the slice of `s` between the two. */
  lemma SliceBetween(s: string, front: string, r: string, p: char -> bool)
    requires |front| <= |s| && front == s[|s| - |front|..] && All(s[..|s| - |front|], p)
    requires |r| <= |front| && r == front[..|r|] && All(front[|r|..], p)
    ensures var a := |s| - |front|;
      r == s[a..a + |r|] && All(s[..a], p) && All(s[a + |r|..], p)
    ensures r == [] ==> All(s, p)
  {
    var a := |s| - |front|;
    SliceOfSuffix(s, a, |r|);
    if r == [] {
      forall i | 0 <= i < |s| ensures p(s[i]) {
        if i < a {
          assert s[..a][i] == s[i];
        } else {
          assert s[a + |r|..][i - a] == s[i];
        }
      }
    }
  }

  /** Slices of a suffix are slices of the whole. */
  lemma SliceOfSuffix(s: string, a: nat, n: nat)
    requires a + n <= |s|
    ensures s[a..][..n] == s[a..a + n] && s[a..][n..] == s[a + n..]
  {
  }

  /** A prefix of characters satisfying `p` is all `DropLeading` removes. */
  lemma {:induction false} DropLeadingPadded(pre: string, x: string, p: char -> bool)
    requires All(pre, p) && (x == [] || !p(x[0]))
    ensures DropLeading(pre + x, p) == x
    decreases |pre|
  {
    if pre == [] {
      assert pre + x == x;
    } else {
      assert (pre + x)[1..] == pre[1..] + x;
      assert All(pre[1..], p) by {
        forall i | 0 <= i < |pre[1..]| ensures p(pre[1..][i]) {
          assert pre[1..][i] == pre[i + 1];
        }
      }
      DropLeadingPadded(pre[1..], x, p);
    }
  }

  /** A suffix of characters satisfying `p` is all `DropTrailing` removes. */
  lemma {:induction false} DropTrailingPadded(x: string, post: string, p: char -> bool)
    requires All(post, p) && (x == [] || !p(x[|x| - 1]))
    ensures DropTrailing(x + post, p) == x
    decreases |post|
  {
    if post == [] {
      assert x + post == x;
    } else {
      var init := post[..|post| - 1];
      assert (x + post)[..|x + post| - 1] == x + init;
      assert All(init, p) by {
        forall i | 0 <= i < |init| ensures p(init[i]) {
          assert init[i] == post[i];
        }
      }
      DropTrailingPadded(x, init, p);
    }
  }

  /** `s.trim()`: the text between the leading and the trailing whitespace. */
  function Trim(s: string): (r: string)
    ensures r == [] || (!IsWhitespace(r[0]) && !IsWhitespace(r[|r| - 1]))
    ensures r == [] <==> IsBlank(s)
    ensures exists a, b :: 0 <= a <= b <= |s| && r == s[a..b] && IsBlank(s[..a]) && IsBlank(s[b..])
  {
    Strip(s, IsWhitespace)
  }

  /** Trimming a string that neither starts nor ends with whitespace changes nothing. */
  lemma TrimUnchanged(s: string)
    requires s == [] || (!IsWhitespace(s[0]) && !IsWhitespace(s[|s| - 1]))
    ensures Trim(s) == s
  {
    DropLeadingPadded([], s, IsWhitespace);
    DropTrailingPadded(s, [], IsWhitespace);
    assert [] + s == s && s + [] == s;
  }

  /** Trimming removes exactly a blank prefix and a blank suffix around text that
      neither starts nor ends with whitespace. */
  lemma TrimPadded(pre: string, x: string, post: string)
    requires IsBlank(pre) && IsBlank(post)
    requires x != [] && !IsWhitespace(x[0]) && !IsWhitespace(x[|x| - 1])
    ensures Trim(pre + x + post) == x
  {
    assert pre + x + post == pre + (x + post);
    DropLeadingPadded(pre, x + post, IsWhitespace);
    DropTrailingPadded(x, post, IsWhitespace);
  }

  /** `s.split(sep)`: the pieces of `s` between occurrences of `sep`, in order;
      an empty string splits into one empty piece. */
  function Split(s: string, sep: char): (r: seq<string>)
    ensures |r| >= 1
    ensures forall i :: 0 <= i < |r| ==> sep !in r[i]
    decreases |s|
  {
    if s == [] then [[]]
    else
      var rest := Split(s[1..], sep);
      if s[0] == sep then [[]] + rest
      else [[s[0]] + rest[0]] + rest[1..]
  }

  /** `parts.join(sep)`: the inverse of `Split`. */
  function Join(parts: seq<string>, sep: char): string
    decreases |parts|
  {
    if |parts| == 0 then []
    else if |parts| == 1 then parts[0]
    else parts[0] + [sep] + Join(parts[1..], sep)
  }

  /** Two pieces join around one separator. */
  lemma JoinTwo(a: string, b: string, sep: char)
    ensures Join([a, b], sep) == a + [sep] + b
  {
    assert [a, b][1..] == [b];
  }

  /** Joining the pieces back with the separator gives the original string. */
  lemma {:induction false} JoinSplit(s: string, sep: char)
    ensures Join(Split(s, sep), sep) == s
    decreases |s|
  {
    if s != [] {
      var rest := Split(s[1..], sep);
      JoinSplit(s[1..], sep);
      if s[0] == sep {
        assert Split(s, sep) == [[]] + rest;
        assert ([[]] + rest)[1..] == rest;
      } else {
        var r := [[s[0]] + rest[0]] + rest[1..];
        assert Split(s, sep) == r;
        if |rest| == 1 {
          assert r == [[s[0]] + rest[0]];
        } else {
          assert r[1..] == rest[1..];
          assert Join(rest, sep) == rest[0] + [sep] + Join(rest[1..], sep);
        }
      }
    }
  }

  /** A prefix free of the separator is glued onto the first piece of what follows it. */
  lemma {:induction false} SplitPrefix(a: string, rest: string, sep: char)
    requires sep !in a
    ensures Split(a + rest, sep) == [a + Split(rest, sep)[0]] + Split(rest, sep)[1..]
    decreases |a|
  {
    if a != [] {
      assert (a + rest)[1..] == a[1..] + rest;
      assert sep !in a[1..] by {
        forall i | 0 <= i < |a[1..]| ensures a[1..][i] != sep {
          assert a[1..][i] == a[i + 1];
        }
      }
      SplitPrefix(a[1..], rest, sep);
      var inner := Split(a[1..] + rest, sep);
      assert inner[0] == a[1..] + Split(rest, sep)[0];
      assert inner[1..] == Split(rest, sep)[1..];
      assert Split(a + rest, sep) == [[a[0]] + inner[0]] + inner[1..];
      assert [a[0]] + (a[1..] + Split(rest, sep)[0]) == a + Split(rest, sep)[0];
    } else {
      assert a + rest == rest;
      assert a + Split(rest, sep)[0] == Split(rest, sep)[0];
    }
  }

  /** Splitting a join of separator-free pieces gives the pieces back. */
  lemma {:induction false} SplitJoin(parts: seq<string>, sep: char)
    requires |parts| >= 1
    requires forall i :: 0 <= i < |parts| ==> sep !in parts[i]
    ensures Split(Join(parts, sep), sep) == parts
    decreases |parts|
  {
    if |parts| == 1 {
      SplitPrefix(parts[0], [], sep);
      assert parts[0] + [] == parts[0];
    } else {
      var tail := Join(parts[1..], sep);
      SplitJoin(parts[1..], sep);
      assert Split([sep] + tail, sep) == [[]] + parts[1..];
      SplitPrefix(parts[0], [sep] + tail, sep);
      assert parts[0] + [sep] + tail == parts[0] + ([sep] + tail);
      assert parts[0] + [] == parts[0];
      assert [parts[0]] + parts[1..] == parts;
    }
  }

  /** The first piece is the longest separator-free prefix of `s`. */
  lemma {:induction false} SplitFirst(s: string, sep: char)
    ensures |Split(s, sep)[0]| <= |s| && s[..|Split(s, sep)[0]|] == Split(s, sep)[0]
    ensures |Split(s, sep)[0]| < |s| ==> s[|Split(s, sep)[0]|] == sep
    ensures |Split(s, sep)| == 1 <==> sep !in s
    decreases |s|
  {
    if s != [] {
      SplitFirst(s[1..], sep);
      if s[0] != sep {
        InTail(s, sep);
      } else {
        assert s[0] in s;
      }
    }
  }

  /** A character other than the head occurs in `s` exactly when it occurs in the tail. */
  lemma InTail(s: string, c: char)
    requires s != [] && s[0] != c
    ensures c in s <==> c in s[1..]
  {
    if c in s {
      var i :| 0 <= i < |s| && s[i] == c;
      assert s[1..][i - 1] == c;
    }
  }

  /** When `s` holds the separator, the pieces are the first one followed by the
      pieces of what comes after the first separator. */
  lemma SplitAtFirst(s: string, sep: char)
    requires sep in s
    ensures |Split(s, sep)[0]| < |s|
    ensures Split(s, sep) == [Split(s, sep)[0]] + Split(s[|Split(s, sep)[0]| + 1..], sep)
  {
    SplitFirst(s, sep);
    var a := Split(s, sep)[0];
    var rest := s[|a| + 1..];
    assert s == a + ([sep] + rest);
    SplitPrefix(a, [sep] + rest, sep);
    assert Split([sep] + rest, sep) == [[]] + Split(rest, sep);
    assert a + [] == a;
  }
}

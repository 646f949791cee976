/** Joining output lines into the text of a label file, as both converters
    do (`"\n".join(output)` in Python, `output_lines.join("\n")` in Rust),
    and the inverse split on the separator character. */
module Text {

  /** `sep.join(lines)`: the lines with `sep` between neighbours. */
  function Join(lines: seq<string>, sep: string): string
  {
    if |lines| == 0 then ""
    else if |lines| == 1 then lines[0]
    else lines[0] + sep + Join(lines[1..], sep)
  }

  /** The number of occurrences of character `c` in `s`. */
  function Count(s: string, c: char): nat
  {
    if |s| == 0 then 0
    else (if s[0] == c then 1 else 0) + Count(s[1..], c)
  }

  lemma {:induction false} CountAppend(a: string, b: string, c: char)
    ensures Count(a + b, c) == Count(a, c) + Count(b, c)
    decreases |a|
  {
    if |a| == 0 {
      assert a + b == b;
    } else {
      assert (a + b)[1..] == a[1..] + b;
      CountAppend(a[1..], b, c);
    }
  }

  lemma CountZero(s: string, c: char)
    ensures Count(s, c) == 0 <==> c !in s
  {
    if |s| > 0 {
      CountZero(s[1..], c);
      assert s == [s[0]] + s[1..];
    }
  }

  /** The index of the first `c` in `s`, or |s| when there is none. */
  function IndexOf(s: string, c: char): (i: nat)
    ensures i <= |s|
    ensures i < |s| ==> s[i] == c
    ensures forall k :: 0 <= k < i ==> s[k] != c
  {
    if |s| == 0 then 0
    else if s[0] == c then 0
    else 1 + IndexOf(s[1..], c)
  }

  /** The index of the last `c` in `s`, or -1. */
  function LastIndex(s: string, c: char): (i: int)
    ensures -1 <= i < |s|
    ensures 0 <= i ==> s[i] == c
    ensures forall k :: i < k < |s| ==> s[k] != c
  {
    if |s| == 0 then -1
    else if s[|s| - 1] == c then |s| - 1
    else LastIndex(s[..|s| - 1], c)
  }

  /** `LastIndex` finds a `c` with no `c` after it. */
  lemma {:induction false} LastIndexAt(s: string, i: nat, c: char)
    requires i < |s| && s[i] == c
    requires forall k :: i < k < |s| ==> s[k] != c
    ensures LastIndex(s, c) == i
    decreases |s|
  {
    if i < |s| - 1 {
      LastIndexAt(s[..|s| - 1], i, c);
    }
  }

  /** `s.split(c)`: the pieces between occurrences of `c`; a text without
      `c` is one piece, so the empty text splits into one empty piece. */
  function Split(s: string, c: char): (pieces: seq<string>)
    ensures |pieces| >= 1
    decreases |s|
  {
    var i := IndexOf(s, c);
    if i == |s| then [s]
    else [s[..i]] + Split(s[i + 1..], c)
  }

  /** With a one-character separator that no line contains, joining
      introduces exactly |lines| - 1 separators, and splitting the result
      gives back the lines. */
  lemma {:induction false} SplitJoin(lines: seq<string>, c: char)
    requires |lines| >= 1
    requires forall k :: 0 <= k < |lines| ==> c !in lines[k]
    ensures Split(Join(lines, [c]), c) == lines
    ensures Count(Join(lines, [c]), c) == |lines| - 1
    decreases |lines|
  {
    CountZero(lines[0], c);
    if |lines| == 1 {
      assert IndexOf(lines[0], c) == |lines[0]|;
    } else {
      var rest := Join(lines[1..], [c]);
      var s := lines[0] + [c] + rest;
      SplitJoin(lines[1..], c);
      assert IndexOf(s, c) == |lines[0]| by {
        IndexOfPrefix(lines[0], [c] + rest, c);
        assert s == lines[0] + ([c] + rest);
      }
      assert s[..|lines[0]|] == lines[0];
      assert s[|lines[0]| + 1..] == rest;
      assert lines == [lines[0]] + lines[1..];
      CountAppend(lines[0], [c], c);
      CountAppend(lines[0] + [c], rest, c);
      assert Count([c], c) == 1 by {
        assert [c][1..] == [];
      }
    }
  }

  /** The first `c` of `a + b`, when `a` has none, is where `b`'s first one
      is, shifted by |a|. */
  lemma {:induction false} IndexOfPrefix(a: string, b: string, c: char)
    requires c !in a
    requires |b| > 0 && b[0] == c
    ensures IndexOf(a + b, c) == |a|
    decreases |a|
  {
    if |a| > 0 {
      assert (a + b)[1..] == a[1..] + b;
      IndexOfPrefix(a[1..], b, c);
    } else {
      assert a + b == b;
    }
  }

  /** A joined text ends with the separator only if the last line does
      (or, when that line is empty, the text before it does). In particular
      lines that are all non-empty and free of `c` never leave a trailing
      `c`. */
  lemma {:induction false} NoTrailingSeparator(lines: seq<string>, c: char)
    requires forall k :: 0 <= k < |lines| ==> |lines[k]| > 0 && c !in lines[k]
    ensures var t := Join(lines, [c]); |t| == 0 || t[|t| - 1] != c
    decreases |lines|
  {
    if |lines| > 1 {
      NoTrailingSeparator(lines[1..], c);
      var rest := Join(lines[1..], [c]);
      assert rest != [] by {
        JoinEndsWithLastLine(lines[1..], c);
      }
    } else if |lines| == 1 {
      assert lines[0][|lines[0]| - 1] in lines[0];
    }
  }

  lemma {:induction false} JoinEndsWithLastLine(lines: seq<string>, c: char)
    requires |lines| >= 1
    ensures |Join(lines, [c])| >= |lines[|lines| - 1]|
    decreases |lines|
  {
    if |lines| > 1 {
      JoinEndsWithLastLine(lines[1..], c);
    }
  }
}

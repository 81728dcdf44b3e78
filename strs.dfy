// The few string operations of Go's `strings` and `unicode` packages that the
// ASCII-art engine relies on, written out over `string` (a sequence of code
// points): the replacement of the two-character escape `\n`, splitting on
// line breaks, and the two trimming operations.

module Strs {

  /** True when the two-character escape `\n` (a backslash, then the letter n)
      starts at index i of s. */
  predicate EscapeAt(s: string, i: int)
  {
    0 <= i && i + 1 < |s| && s[i] == '\\' && s[i + 1] == 'n'
  }

  /** s holds no two-character escape `\n` anywhere. */
  predicate NoEscape(s: string)
  {
    forall i :: 0 <= i < |s| ==> !EscapeAt(s, i)
  }

  /** strings.ReplaceAll(s, "\\n", "\n"): scans left to right and replaces
      every non-overlapping occurrence of the escape by a real line break. */
  function ReplaceEscapes(s: string): (r: string)
    ensures |r| <= |s|
    ensures NoEscape(r)
    ensures |r| == 0 <==> |s| == 0
    ensures |s| > 0 ==> (r[0] == 'n' <==> s[0] == 'n')
    decreases |s|
  {
    if |s| == 0 then ""
    else if EscapeAt(s, 0) then
      var rest := ReplaceEscapes(s[2..]);
      assert forall i :: 1 <= i < |rest| + 1 ==> !EscapeAt("\n" + rest, i) by {
        forall i | 1 <= i < |rest| + 1 ensures !EscapeAt("\n" + rest, i) {
          assert !EscapeAt(rest, i - 1);
        }
      }
      "\n" + rest
    else
      var rest := ReplaceEscapes(s[1..]);
      assert forall i :: 1 <= i < |rest| + 1 ==> !EscapeAt([s[0]] + rest, i) by {
        forall i | 1 <= i < |rest| + 1 ensures !EscapeAt([s[0]] + rest, i) {
          assert !EscapeAt(rest, i - 1);
        }
      }
      [s[0]] + rest
  }

  /** Replacing escapes changes nothing in a string that holds none. */
  lemma {:induction false} ReplaceEscapesIdentity(s: string)
    requires NoEscape(s)
    ensures ReplaceEscapes(s) == s
    decreases |s|
  {
    if |s| > 0 {
      assert !EscapeAt(s, 0);
      assert NoEscape(s[1..]) by {
        forall i | 0 <= i < |s| - 1 ensures !EscapeAt(s[1..], i) {
          assert !EscapeAt(s, i + 1);
        }
      }
      ReplaceEscapesIdentity(s[1..]);
      assert s == [s[0]] + s[1..];
    }
  }

  /** Replacing escapes is idempotent. */
  lemma ReplaceEscapesIdempotent(s: string)
    ensures ReplaceEscapes(ReplaceEscapes(s)) == ReplaceEscapes(s)
  {
    ReplaceEscapesIdentity(ReplaceEscapes(s));
  }

  /** One step of the scan over a non-empty string. */
  lemma ReplaceEscapesStep(s: string)
    requires |s| > 0
    ensures EscapeAt(s, 0) ==> ReplaceEscapes(s) == "\n" + ReplaceEscapes(s[2..])
    ensures !EscapeAt(s, 0) ==> ReplaceEscapes(s) == [s[0]] + ReplaceEscapes(s[1..])
  {
  }

  /** The replacement distributes over a concatenation unless the cut falls
      inside an escape (a trailing backslash followed by a leading n). */
  lemma {:induction false} ReplaceEscapesConcat(a: string, t: string)
    requires !(|a| > 0 && |t| > 0 && a[|a| - 1] == '\\' && t[0] == 'n')
    ensures ReplaceEscapes(a + t) == ReplaceEscapes(a) + ReplaceEscapes(t)
    decreases |a|
  {
    if |a| == 0 {
      assert a + t == t;
    } else if EscapeAt(a, 0) {
      ReplaceEscapesConcat(a[2..], t);
      ConcatAfterEscape(a, t);
    } else {
      ReplaceEscapesConcat(a[1..], t);
      ConcatAfterChar(a, t);
    }
  }

  /** The inductive step of ReplaceEscapesConcat when a starts with an escape. */
  lemma ConcatAfterEscape(a: string, t: string)
    requires EscapeAt(a, 0)
    requires ReplaceEscapes(a[2..] + t) == ReplaceEscapes(a[2..]) + ReplaceEscapes(t)
    ensures ReplaceEscapes(a + t) == ReplaceEscapes(a) + ReplaceEscapes(t)
  {
    ReplaceEscapesStep(a);
    ReplaceEscapesStep(a + t);
    assert EscapeAt(a + t, 0);
    DropConcat(a, t, 2);
    ConcatAssoc("\n", ReplaceEscapes(a[2..]), ReplaceEscapes(t));
  }

  /** The inductive step of ReplaceEscapesConcat when a starts with a
      character that begins no escape, even with the first character of t
      after it. */
  lemma ConcatAfterChar(a: string, t: string)
    requires |a| > 0 && !EscapeAt(a, 0)
    requires !(|a| == 1 && |t| > 0 && a[0] == '\\' && t[0] == 'n')
    requires ReplaceEscapes(a[1..] + t) == ReplaceEscapes(a[1..]) + ReplaceEscapes(t)
    ensures ReplaceEscapes(a + t) == ReplaceEscapes(a) + ReplaceEscapes(t)
  {
    ReplaceEscapesStep(a);
    ReplaceEscapesStep(a + t);
    assert (a + t)[0] == a[0];
    if |a| >= 2 {
      assert (a + t)[1] == a[1];
    }
    assert !EscapeAt(a + t, 0);
    DropConcat(a, t, 1);
    ConcatAssoc([a[0]], ReplaceEscapes(a[1..]), ReplaceEscapes(t));
  }

  lemma DropConcat(a: string, t: string, k: nat)
    requires k <= |a|
    ensures (a + t)[k..] == a[k..] + t
  {
  }

  lemma DropLastConcat<T>(xs: seq<T>, ys: seq<T>)
    requires |ys| > 0
    ensures (xs + ys)[..|xs + ys| - 1] == xs + ys[..|ys| - 1]
    ensures (xs + ys)[|xs + ys| - 1] == ys[|ys| - 1]
  {
  }

  lemma ConcatAssoc<T>(a: seq<T>, b: seq<T>, c: seq<T>)
    ensures (a + b) + c == a + (b + c)
  {
  }

  /** A literal escape between a and b becomes a line break, and the two
      sides are replaced independently. */
  lemma EscapeBecomesNewline(a: string, b: string)
    ensures ReplaceEscapes(a + "\\n" + b) == ReplaceEscapes(a) + "\n" + ReplaceEscapes(b)
  {
    assert a + "\\n" + b == a + ("\\n" + b);
    ReplaceEscapesConcat(a, "\\n" + b);
    assert EscapeAt("\\n" + b, 0);
    assert ("\\n" + b)[2..] == b;
  }

  /** A character that is neither a backslash nor the letter n can take part
      in no escape, so it separates the replacement of its two sides. */
  lemma ReplaceEscapesAround(a: string, m: char, b: string)
    requires m != '\\' && m != 'n'
    ensures ReplaceEscapes(a + [m] + b) == ReplaceEscapes(a) + [m] + ReplaceEscapes(b)
  {
    assert a + [m] + b == a + ([m] + b);
    ReplaceEscapesConcat(a, [m] + b);
    assert !EscapeAt([m] + b, 0);
    assert ([m] + b)[1..] == b;
  }

  /** strings.Join(ls, "\n"). */
  function JoinLines(ls: seq<string>): (s: string)
    decreases |ls|
  {
    if |ls| == 0 then ""
    else if |ls| == 1 then ls[0]
    else ls[0] + "\n" + JoinLines(ls[1..])
  }

  /** strings.Split(s, "\n"): the pieces between line breaks, in order; the
      empty string gives one empty piece. */
  function SplitLines(s: string): (r: seq<string>)
    ensures |r| >= 1
    ensures forall k :: 0 <= k < |r| ==> '\n' !in r[k]
    decreases |s|
  {
    if |s| == 0 then [""]
    else
      var rest := SplitLines(s[1..]);
      if s[0] == '\n' then [""] + rest
      else
        assert forall c :: c in [s[0]] + rest[0] ==> c == s[0] || c in rest[0];
        [[s[0]] + rest[0]] + rest[1..]
  }

  /** Joining the pieces with line breaks gives back the original string. */
  lemma {:induction false} JoinSplitLines(s: string)
    ensures JoinLines(SplitLines(s)) == s
    decreases |s|
  {
    if |s| > 0 {
      var c, tail := s[0], s[1..];
      var rest := SplitLines(tail);
      JoinSplitLines(tail);
      assert s == [c] + tail;
      SplitLinesCons(c, tail);
      if c == '\n' {
        JoinLinesEmptyHead(rest);
      } else {
        JoinLinesHeadChar(c, rest[0], rest[1..]);
        assert [rest[0]] + rest[1..] == rest;
      }
    }
  }

  /** An empty first piece puts a line break in front of the join. */
  lemma JoinLinesEmptyHead(rest: seq<string>)
    requires |rest| >= 1
    ensures JoinLines([""] + rest) == ['\n'] + JoinLines(rest)
  {
    var l := [""] + rest;
    assert l[0] == "" && l[1..] == rest;
    assert JoinLines(l) == "" + "\n" + JoinLines(rest);
  }

  /** One piece more than there are line breaks. */
  lemma {:induction false} SplitLinesCount(s: string)
    ensures |SplitLines(s)| == multiset(s)['\n'] + 1
    decreases |s|
  {
    if |s| > 0 {
      SplitLinesCount(s[1..]);
      assert s == [s[0]] + s[1..];
      assert multiset(s) == multiset([s[0]]) + multiset(s[1..]);
    }
  }

  /** Splitting undoes joining, for pieces that hold no line break. */
  lemma NoBreakAfterHeadChar(ls: seq<string>)
    requires |ls| >= 1 && |ls[0]| > 0
    requires forall k :: 0 <= k < |ls| ==> '\n' !in ls[k]
    ensures var ls' := [ls[0][1..]] + ls[1..]; forall k :: 0 <= k < |ls'| ==> '\n' !in ls'[k]
  {
    var ls' := [ls[0][1..]] + ls[1..];
    forall k | 0 <= k < |ls'|
      ensures '\n' !in ls'[k]
    {
      if k == 0 {
        assert forall c :: c in ls[0][1..] ==> c in ls[0];
      } else {
        assert ls'[k] == ls[k];
      }
    }
  }

  lemma {:induction false} SplitJoinLines(ls: seq<string>)
    requires |ls| >= 1
    requires forall k :: 0 <= k < |ls| ==> '\n' !in ls[k]
    ensures SplitLines(JoinLines(ls)) == ls
    decreases |ls|, |ls[0]|, 1
  {
    if |ls[0]| > 0 {
      SplitJoinLinesHeadChar(ls);
    } else if |ls| > 1 {
      SplitJoinLinesEmptyHead(ls);
    }
  }

  /** The first piece starts with a character other than a line break. */
  lemma {:induction false} SplitJoinLinesHeadChar(ls: seq<string>)
    requires |ls| >= 1 && |ls[0]| > 0
    requires forall k :: 0 <= k < |ls| ==> '\n' !in ls[k]
    ensures SplitLines(JoinLines(ls)) == ls
    decreases |ls|, |ls[0]|, 0
  {
    var head := ls[0];
    var ls' := [head[1..]] + ls[1..];
    NoBreakAfterHeadChar(ls);
    SplitJoinLines(ls');
    JoinLinesHeadChar(head[0], head[1..], ls[1..]);
    assert head == [head[0]] + head[1..];
    assert ls == [[head[0]] + head[1..]] + ls[1..];
    assert head[0] != '\n' by { assert head[0] in head; }
    SplitLinesCons(head[0], JoinLines(ls'));
  }

  /** The first piece is empty and more pieces follow. */
  lemma {:induction false} SplitJoinLinesEmptyHead(ls: seq<string>)
    requires |ls| > 1 && ls[0] == ""
    requires forall k :: 0 <= k < |ls| ==> '\n' !in ls[k]
    ensures SplitLines(JoinLines(ls)) == ls
    decreases |ls|, |ls[0]|, 0
  {
    SplitJoinLines(ls[1..]);
    assert ls == [""] + ls[1..];
    JoinLinesEmptyHead(ls[1..]);
    SplitLinesCons('\n', JoinLines(ls[1..]));
  }

  /** A character in front of the first piece is in front of the join. */
  lemma JoinLinesHeadChar(c: char, head: string, rest: seq<string>)
    ensures JoinLines([[c] + head] + rest) == [c] + JoinLines([head] + rest)
  {
    var l1 := [[c] + head] + rest;
    var l2 := [head] + rest;
    assert l1[1..] == rest && l2[1..] == rest;
    if |rest| > 0 {
      assert JoinLines(l1) == ([c] + head) + "\n" + JoinLines(rest);
      assert JoinLines(l2) == head + "\n" + JoinLines(rest);
    }
  }

  /** One step of the split over a non-empty string. */
  lemma SplitLinesStep(s: string)
    requires |s| > 0
    ensures var R := SplitLines(s[1..]);
            SplitLines(s) == if s[0] == '\n' then [""] + R else [[s[0]] + R[0]] + R[1..]
  {
  }

  /** How splitting treats the first character. */
  lemma SplitLinesCons(c: char, s: string)
    ensures var R := SplitLines(s);
            SplitLines([c] + s) == if c == '\n' then [""] + R else [[c] + R[0]] + R[1..]
  {
    assert ([c] + s)[1..] == s;
  }

  /** The pieces of a concatenation, given the pieces of its two sides: the
      last piece on the left and the first piece on the right become one. */
  function Glue(xs: seq<string>, ys: seq<string>): (r: seq<string>)
    requires |xs| >= 1 && |ys| >= 1
    ensures |r| == |xs| + |ys| - 1
  {
    xs[..|xs| - 1] + [xs[|xs| - 1] + ys[0]] + ys[1..]
  }

  /** Gluing onto a single empty piece changes nothing. */
  lemma GlueEmpty(ys: seq<string>)
    requires |ys| >= 1
    ensures Glue([""], ys) == ys
  {
    var e: seq<string> := [""];
    assert e[..0] == [];
    assert e[0] + ys[0] == ys[0];
    assert [ys[0]] + ys[1..] == ys;
  }

  /** A piece in front of the left side stays in front. */
  lemma GlueCons(a: string, xs: seq<string>, ys: seq<string>)
    requires |xs| >= 1 && |ys| >= 1
    ensures Glue([a] + xs, ys) == [a] + Glue(xs, ys)
  {
    var axs := [a] + xs;
    assert axs[..|axs| - 1] == [a] + xs[..|xs| - 1];
    assert axs[|axs| - 1] == xs[|xs| - 1];
  }

  /** A character in front of the first piece of the left side stays in
      front of the first glued piece. */
  lemma GlueExtendHead(c: char, xs: seq<string>, ys: seq<string>)
    requires |xs| >= 1 && |ys| >= 1
    ensures var r := Glue(xs, ys);
            Glue([[c] + xs[0]] + xs[1..], ys) == [[c] + r[0]] + r[1..]
  {
    var r := Glue(xs, ys);
    if |xs| == 1 {
      var cxs: seq<string> := [[c] + xs[0]];
      assert [[c] + xs[0]] + xs[1..] == cxs;
      assert cxs[..0] == [];
      assert r == [xs[0] + ys[0]] + ys[1..];
      assert r[0] == xs[0] + ys[0] && r[1..] == ys[1..];
      assert ([c] + xs[0]) + ys[0] == [c] + (xs[0] + ys[0]);
    } else {
      GlueCons(xs[0], xs[1..], ys);
      GlueCons([c] + xs[0], xs[1..], ys);
      assert xs == [xs[0]] + xs[1..];
      assert r == [xs[0]] + Glue(xs[1..], ys);
    }
  }

  /** Splitting a concatenation glues the pieces of its two sides. */
  lemma {:induction false} SplitLinesConcat(x: string, y: string)
    ensures SplitLines(x + y) == Glue(SplitLines(x), SplitLines(y))
    decreases |x|
  {
    var X, Y := SplitLines(x), SplitLines(y);
    if |x| == 0 {
      assert x + y == y;
      assert X == [""];
      GlueEmpty(Y);
    } else {
      var c, x' := x[0], x[1..];
      var X' := SplitLines(x');
      SplitLinesConcat(x', y);
      DropConcat(x, y, 1);
      assert (x + y)[0] == c;
      SplitLinesStep(x);
      SplitLinesStep(x + y);
      if c == '\n' {
        GlueCons("", X', Y);
      } else {
        GlueExtendHead(c, X', Y);
      }
    }
  }

  /** A real line break between x and y: the pieces of x, then those of y. */
  lemma SplitLinesAtNewline(x: string, y: string)
    ensures SplitLines(x + "\n" + y) == SplitLines(x) + SplitLines(y)
  {
    SplitLinesConcat(x, "\n" + y);
    assert x + "\n" + y == x + ("\n" + y);
    SplitLinesCons('\n', y);
    assert "\n" + y == ['\n'] + y;
    GlueEmptyHead(SplitLines(x), SplitLines(y));
  }

  /** Gluing onto a right side that starts with an empty piece appends the
      rest of the right side. */
  lemma GlueEmptyHead(xs: seq<string>, ys: seq<string>)
    requires |xs| >= 1
    ensures Glue(xs, [""] + ys) == xs + ys
  {
    var zs := [""] + ys;
    assert zs[0] == "" && zs[1..] == ys;
    assert xs[|xs| - 1] + "" == xs[|xs| - 1];
    assert xs == xs[..|xs| - 1] + [xs[|xs| - 1]];
  }

  /** Any other character between x and y joins the last piece of x and the
      first piece of y. */
  lemma SplitLinesAtChar(x: string, m: char, y: string)
    requires m != '\n'
    ensures var X, Y := SplitLines(x), SplitLines(y);
            SplitLines(x + [m] + y) == Glue(SplitLines(x), [[m] + Y[0]] + Y[1..])
  {
    SplitLinesConcat(x, [m] + y);
    assert x + [m] + y == x + ([m] + y);
    SplitLinesCons(m, y);
  }

  /** A string without line breaks is one piece. */
  lemma SplitLinesSingle(s: string)
    requires '\n' !in s
    ensures SplitLines(s) == [s]
  {
    SplitJoinLines([s]);
  }

  /** strings.TrimRight(s, " "): removes trailing ASCII spaces only. */
  function TrimTrailingSpaces(s: string): (r: string)
    ensures r <= s
    ensures r == [] || r[|r| - 1] != ' '
    ensures forall i :: |r| <= i < |s| ==> s[i] == ' '
    decreases |s|
  {
    if |s| == 0 || s[|s| - 1] != ' ' then s
    else TrimTrailingSpaces(s[..|s| - 1])
  }

  /** unicode.IsSpace: the Latin-1 spaces and the other code points with the
      Unicode White_Space property. */
  predicate IsWhitespace(c: char)
    ensures c as int <= 0xFF ==>
              (IsWhitespace(c) <==> c in {' ', '\t', '\n', '\r', 0x0B as char, 0x0C as char, 0x85 as char, 0xA0 as char})
    ensures IsWhitespace(c) ==> c as int <= 0x3000
  {
    var n := c as int;
    || 0x09 <= n <= 0x0D || n == 0x20 || n == 0x85 || n == 0xA0
    || n == 0x1680 || 0x2000 <= n <= 0x200A || n == 0x2028 || n == 0x2029
    || n == 0x202F || n == 0x205F || n == 0x3000
  }

  /** strings.TrimLeftFunc: drops the leading characters that satisfy f. */
  function TrimLeftFunc(s: string, f: char -> bool): (r: string)
    ensures |r| <= |s| && r == s[|s| - |r|..]
    ensures r == [] || !f(r[0])
    ensures forall i :: 0 <= i < |s| - |r| ==> f(s[i])
    decreases |s|
  {
    if |s| == 0 || !f(s[0]) then s
    else TrimLeftFunc(s[1..], f)
  }

  /** strings.TrimRightFunc: drops the trailing characters that satisfy f. */
  function TrimRightFunc(s: string, f: char -> bool): (r: string)
    ensures r <= s
    ensures r == [] || !f(r[|r| - 1])
    ensures forall i :: |r| <= i < |s| ==> f(s[i])
    decreases |s|
  {
    if |s| == 0 || !f(s[|s| - 1]) then s
    else TrimRightFunc(s[..|s| - 1], f)
  }

  /** r sits at index i of s, and every character of s around it satisfies f. */
  predicate TrimmedAt(r: string, s: string, i: int, f: char -> bool)
  {
    && 0 <= i && i + |r| <= |s| && s[i..i + |r|] == r
    && (forall k :: 0 <= k < i ==> f(s[k]))
    && (forall k :: i + |r| <= k < |s| ==> f(s[k]))
  }

  /** strings.TrimSpace: the part of s between its leading and its trailing
      whitespace, in the sense of unicode.IsSpace. */
  function TrimSpace(s: string): (r: string)
    ensures exists i :: TrimmedAt(r, s, i, IsWhitespace)
    ensures r == [] || (!IsWhitespace(r[0]) && !IsWhitespace(r[|r| - 1]))
  {
    var l := TrimLeftFunc(s, IsWhitespace);
    var r := TrimRightFunc(l, IsWhitespace);
    TrimBothEnds(s, l, r, IsWhitespace);
    r
  }

  /** Trimming both ends leaves the slice of s that starts where the leading
      run ends. */
  lemma {:induction false} TrimBothEnds(s: string, l: string, r: string, f: char -> bool)
    requires l == TrimLeftFunc(s, f) && r == TrimRightFunc(l, f)
    ensures TrimmedAt(r, s, |s| - |l|, f)
    ensures r == [] || (!f(r[0]) && !f(r[|r| - 1]))
  {
    TrimBothAround(s, l, r, f);
    TrimBothEndChars(s, l, r, f);
  }

  lemma {:induction false} TrimBothAround(s: string, l: string, r: string, f: char -> bool)
    requires l == TrimLeftFunc(s, f) && r == TrimRightFunc(l, f)
    ensures TrimmedAt(r, s, |s| - |l|, f)
  {
    SliceAround(s, l, r, f);
  }

  lemma {:induction false} TrimBothEndChars(s: string, l: string, r: string, f: char -> bool)
    requires l == TrimLeftFunc(s, f) && r == TrimRightFunc(l, f)
    ensures r == [] || (!f(r[0]) && !f(r[|r| - 1]))
  {
    if r != [] {
      assert r[0] == l[0];
    }
  }

  /** A prefix r of a suffix l of s sits where l starts, with the characters
      before l and those of l after r around it. */
  lemma SliceAround(s: string, l: string, r: string, f: char -> bool)
    requires |l| <= |s| && l == s[|s| - |l|..] && r <= l
    requires forall k :: 0 <= k < |s| - |l| ==> f(s[k])
    requires forall k :: |r| <= k < |l| ==> f(l[k])
    ensures TrimmedAt(r, s, |s| - |l|, f)
  {
    var i := |s| - |l|;
    PrefixOfSuffix(s, l, r);
    forall k | i + |r| <= k < |s| ensures f(s[k]) {
      assert s[k] == l[k - i];
    }
  }

  /** A prefix r of a suffix l of s is the slice of s where l starts. */
  lemma PrefixOfSuffix<T>(s: seq<T>, l: seq<T>, r: seq<T>)
    requires |l| <= |s| && l == s[|s| - |l|..] && r <= l
    ensures s[|s| - |l|..|s| - |l| + |r|] == r
  {
    var i := |s| - |l|;
    assert r == l[..|r|];
    assert s[i..i + |r|] == s[i..][..|r|];
  }

  /** Trimming both ends gives the empty string exactly when every character
      satisfies f. */
  lemma {:induction false} TrimBothEmpty(s: string, f: char -> bool)
    ensures TrimRightFunc(TrimLeftFunc(s, f), f) == "" <==> forall i :: 0 <= i < |s| ==> f(s[i])
  {
    var l := TrimLeftFunc(s, f);
    if TrimRightFunc(l, f) == "" {
      assert l == [];
    }
    if forall i :: 0 <= i < |s| ==> f(s[i]) {
      assert l == [];
    }
  }

  /** TrimSpace gives the empty string exactly when every character is
      whitespace. */
  lemma TrimSpaceEmpty(s: string)
    ensures TrimSpace(s) == "" <==> forall i :: 0 <= i < |s| ==> IsWhitespace(s[i])
  {
    TrimBothEmpty(s, IsWhitespace);
  }
}

/**
 * The few Python `str` operations the core relies on: `strip()`, `rstrip(chars)`,
 * and the line splitting of `file.readlines()` together with its inverse `file.writelines()`.
 */
module PyText {

  /** The characters Python 2's `str.strip()` removes: space, \t, \n, \v, \f and \r. */
  predicate IsPyWhitespace(c: char)
  {
    c == ' ' || c == '\t' || c == '\n' || c == '\r' || c as int == 11 || c as int == 12
  }

  /** `s.lstrip()`: drops the leading whitespace and nothing else. */
  function LStrip(s: string): (r: string)
    ensures |r| <= |s| && r == s[|s| - |r|..]
    ensures forall k :: 0 <= k < |s| - |r| ==> IsPyWhitespace(s[k])
    ensures r != [] ==> !IsPyWhitespace(r[0])
    decreases |s|
  {
    if s != [] && IsPyWhitespace(s[0]) then LStrip(s[1..]) else s
  }

  /** `s.rstrip()`: drops the trailing whitespace and nothing else. */
  function RStrip(s: string): (r: string)
    ensures |r| <= |s| && r == s[..|r|]
    ensures forall k :: |r| <= k < |s| ==> IsPyWhitespace(s[k])
    ensures r != [] ==> !IsPyWhitespace(r[|r| - 1])
    decreases |s|
  {
    if s != [] && IsPyWhitespace(s[|s| - 1]) then RStrip(s[..|s| - 1]) else s
  }

  /** `s.strip()`. */
  function Strip(s: string): (r: string)
  {
    RStrip(LStrip(s))
  }

  /**
   * When `s` is whitespace, then a non-blank middle, then whitespace, `s.strip()` is exactly that middle:
   * this pins down which characters `strip()` removes.
   */
  lemma StripMiddle(pre: string, mid: string, post: string)
    requires forall k :: 0 <= k < |pre| ==> IsPyWhitespace(pre[k])
    requires forall k :: 0 <= k < |post| ==> IsPyWhitespace(post[k])
    requires mid != [] && !IsPyWhitespace(mid[0]) && !IsPyWhitespace(mid[|mid| - 1])
    ensures Strip(pre + mid + post) == mid
  {
    LStripPrefix(pre, mid + post);
    assert pre + mid + post == pre + (mid + post);
    RStripSuffix(mid, post);
  }

  lemma LStripPrefix(pre: string, rest: string)
    requires forall k :: 0 <= k < |pre| ==> IsPyWhitespace(pre[k])
    requires rest != [] && !IsPyWhitespace(rest[0])
    ensures LStrip(pre + rest) == rest
  {
    var s := pre + rest;
    var l := LStrip(s);
    assert s[|pre|] == rest[0];
    assert l != [] && l[0] == s[|s| - |l|];
  }

  lemma RStripSuffix(mid: string, post: string)
    requires forall k :: 0 <= k < |post| ==> IsPyWhitespace(post[k])
    requires mid != [] && !IsPyWhitespace(mid[|mid| - 1])
    ensures RStrip(mid + post) == mid
  {
    var l := mid + post;
    var r := RStrip(l);
    assert l[|mid| - 1] == mid[|mid| - 1];
    assert r != [] && r[|r| - 1] == l[|r| - 1];
    assert r == l[..|mid|];
  }

  /** `s.rstrip(chars)`: drops the trailing characters that occur in `chars`. */
  function RStripChars(s: string, chars: string): (r: string)
    ensures |r| <= |s| && r == s[..|r|]
    ensures forall k :: |r| <= k < |s| ==> s[k] in chars
    ensures r != [] ==> r[|r| - 1] !in chars
    decreases |s|
  {
    if s != [] && s[|s| - 1] in chars then RStripChars(s[..|s| - 1], chars) else s
  }

  /** Length of the first line of `c`, its '\n' terminator included when there is one. */
  function LineLength(c: string): (k: nat)
    requires c != []
    ensures 1 <= k <= |c|
    ensures forall i :: 0 <= i < k - 1 ==> c[i] != '\n'
    ensures c[k - 1] == '\n' || k == |c|
  {
    if c[0] == '\n' || |c| == 1 then 1 else 1 + LineLength(c[1..])
  }

  /** `f.readlines()` on a file opened in binary mode: split after every '\n', keeping it. */
  function ReadLines(c: string): (lines: seq<string>)
    decreases |c|
  {
    if c == [] then [] else [c[..LineLength(c)]] + ReadLines(c[LineLength(c)..])
  }

  /** `f.writelines(lines)`: the lines written back to back. */
  function JoinLines(lines: seq<string>): (c: string)
  {
    if lines == [] then [] else lines[0] + JoinLines(lines[1..])
  }

  /** A '\n' occurs in `line` only as its final character. */
  predicate NewlineOnlyAtEnd(line: string)
  {
    forall j :: 0 <= j < |line| - 1 ==> line[j] != '\n'
  }

  /**
   * The shape of every `readlines()` result: no line is empty, a line holds at most one
   * '\n' and only at its end, and every line but the last is terminated.
   */
  predicate WellFormedLines(lines: seq<string>)
  {
    forall i :: 0 <= i < |lines| ==>
      lines[i] != [] && NewlineOnlyAtEnd(lines[i]) &&
      (i < |lines| - 1 ==> lines[i][|lines[i]| - 1] == '\n')
  }

  /** Reading a file and writing its lines back reproduces the file, and the lines are well formed. */
  lemma ReadLinesJoin(c: string)
    ensures JoinLines(ReadLines(c)) == c
    ensures WellFormedLines(ReadLines(c))
  {
    ReadLinesRoundTrip(c);
    ReadLinesWellFormed(c);
  }

  lemma {:induction false} ReadLinesRoundTrip(c: string)
    ensures JoinLines(ReadLines(c)) == c
    decreases |c|
  {
    if c != [] {
      var k := LineLength(c);
      var first, rest := c[..k], ReadLines(c[k..]);
      assert JoinLines(ReadLines(c)) == first + JoinLines(rest) by {
        var lines := [first] + rest;
        assert ReadLines(c) == lines;
        assert lines[0] == first && lines[1..] == rest;
      }
      ReadLinesRoundTrip(c[k..]);
      TakeDrop(c, k);
    }
  }

  lemma TakeDrop<T>(s: seq<T>, k: nat)
    requires k <= |s|
    ensures s[..k] + s[k..] == s
  {
  }

  lemma {:induction false} ReadLinesWellFormed(c: string)
    ensures WellFormedLines(ReadLines(c))
    decreases |c|
  {
    if c != [] {
      var k := LineLength(c);
      var first, rest := c[..k], ReadLines(c[k..]);
      ReadLinesWellFormed(c[k..]);
      assert ReadLines(c) == [first] + rest;
      assert NewlineOnlyAtEnd(first) by {
        assert forall j :: 0 <= j < k - 1 ==> first[j] == c[j];
      }
      assert rest != [] ==> first[k - 1] == '\n' by {
        if rest != [] {
          assert c[k..] != [];
        }
      }
      WellFormedCons(first, rest);
    }
  }

  /** A well-formed line in front of well-formed lines, terminated when more lines follow, keeps them well formed. */
  lemma WellFormedCons(first: string, rest: seq<string>)
    requires first != [] && NewlineOnlyAtEnd(first) && (rest != [] ==> first[|first| - 1] == '\n')
    requires WellFormedLines(rest)
    ensures WellFormedLines([first] + rest)
  {
    var r := [first] + rest;
    forall i | 0 <= i < |r|
      ensures r[i] != [] && NewlineOnlyAtEnd(r[i]) && (i < |r| - 1 ==> r[i][|r[i]| - 1] == '\n')
    {
      if i > 0 {
        assert r[i] == rest[i - 1];
      }
    }
  }

  /** The first line of `a + b` is `a` when `a` is one well-formed line that ends where the text does or at a '\n'. */
  lemma FirstLineOf(a: string, b: string)
    requires a != [] && NewlineOnlyAtEnd(a)
    requires a[|a| - 1] == '\n' || b == []
    ensures LineLength(a + b) == |a|
  {
    var c := a + b;
    var k := LineLength(c);
    assert c[|a| - 1] == a[|a| - 1];
    assert c[k - 1] == '\n' || k == |c|;
    assert k <= |a| ==> c[k - 1] == a[k - 1];
  }

  /** Writing well-formed lines and reading them back gives the same lines. */
  lemma {:induction false} JoinReadLines(lines: seq<string>)
    requires WellFormedLines(lines)
    ensures ReadLines(JoinLines(lines)) == lines
  {
    if lines != [] {
      var rest := lines[1..];
      assert WellFormedLines(rest) by {
        forall i | 0 <= i < |rest|
          ensures rest[i] != [] && NewlineOnlyAtEnd(rest[i]) && (i < |rest| - 1 ==> rest[i][|rest[i]| - 1] == '\n')
        {
          assert rest[i] == lines[i + 1];
        }
      }
      JoinReadLines(rest);
      assert lines[0] != [] && NewlineOnlyAtEnd(lines[0]);
      if rest != [] {
        assert lines[0][|lines[0]| - 1] == '\n';
      } else {
        assert JoinLines(rest) == [];
      }
      FirstLineOf(lines[0], JoinLines(rest));
      var c := JoinLines(lines);
      assert c == lines[0] + JoinLines(rest);
      assert c[..|lines[0]|] == lines[0];
      assert c[|lines[0]|..] == JoinLines(rest);
    }
  }

  /** A sequence of lines that is not well formed is never what reading its own concatenation gives back. */
  lemma NotWellFormedNotReread(lines: seq<string>)
    requires !WellFormedLines(lines)
    ensures ReadLines(JoinLines(lines)) != lines
  {
    ReadLinesJoin(JoinLines(lines));
  }

  /** Joining distributes over concatenation of line sequences. */
  lemma {:induction false} JoinLinesAppend(a: seq<string>, b: seq<string>)
    ensures JoinLines(a + b) == JoinLines(a) + JoinLines(b)
  {
    if a != [] {
      assert (a + b)[1..] == a[1..] + b;
      JoinLinesAppend(a[1..], b);
    } else {
      assert a + b == b;
    }
  }
}

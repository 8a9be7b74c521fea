/**
 * The Python 2 helpers of ec2_ssh/utils.py: `b`, `shlex_quote` and the per-argument quoting that
 * `run_command` applies before it hands the argument vector to the operating system.
 *
 * To say what a quoted word means, the module also gives a reading of one word the way a POSIX
 * shell reads it (section 2.2 "Quoting" of the POSIX Shell Command Language): single quotes keep
 * every character up to the next single quote, double quotes keep every character other than
 * '"', '\', '$' and '`', and unquoted characters are kept when they are ones `shlex_quote` leaves
 * bare. That reading is the partner of `shlex_quote`: it gives every string back.
 */
module Utils {
  import opened Wrappers

  /** `b(s)` under Python 2: byte strings and text strings are the same type, so it is the identity. */
  function B(s: string): (r: string)
    ensures r == s
  {
    s
  }

  /**
   * A character that `[^\w@%+=:,./-]` (with re.I, on a Python 2 byte string) does not find:
   * an ASCII letter or digit, '_', or one of @ % + = : , . / -.
   */
  predicate IsSafeChar(c: char)
  {
    'a' <= c <= 'z' || 'A' <= c <= 'Z' || '0' <= c <= '9' ||
    c == '_' || c == '@' || c == '%' || c == '+' || c == '=' || c == ':' ||
    c == ',' || c == '.' || c == '/' || c == '-'
  }

  /** `_find_unsafe.search(s) is None`. */
  predicate IsSafe(s: string)
  {
    forall i :: 0 <= i < |s| ==> IsSafeChar(s[i])
  }

  /** `s.replace("'", "'\"'\"'")`: every single quote closes the quoting, emits a double-quoted quote, and reopens it. */
  function EscapeQuotes(s: string): (r: string)
    ensures '\'' !in s ==> r == s
  {
    if s == [] then []
    else (if s[0] == '\'' then "'\"'\"'" else [s[0]]) + EscapeQuotes(s[1..])
  }

  /** `shlex_quote(s)` of the Python 2 branch. */
  function ShlexQuote(s: string): (r: string)
    ensures r != []
    ensures s == [] ==> r == "''"
    ensures s != [] && IsSafe(s) ==> r == s
    ensures !IsSafe(s) ==> |r| >= 2 && r[0] == '\'' && r[|r| - 1] == '\''
    ensures r == s || r[0] == '\''
  {
    if s == [] then "''"
    else if IsSafe(s) then s
    else "'" + EscapeQuotes(s) + "'"
  }

  /** The argument vector `run_command(*args)` passes on: `[shlex_quote(x) for x in args]`. */
  function QuoteArgs(args: seq<string>): (argv: seq<string>)
    ensures |argv| == |args|
    ensures forall i :: 0 <= i < |args| ==> argv[i] == ShlexQuote(args[i])
  {
    seq(|args|, i requires 0 <= i < |args| => ShlexQuote(args[i]))
  }

  /** A shell that reads the quoted vector word by word gets the original arguments back. */
  lemma QuoteArgsRoundTrip(args: seq<string>)
    ensures forall i :: 0 <= i < |args| ==> ShellWord(QuoteArgs(args)[i]) == Some(args[i])
  {
    forall i | 0 <= i < |args| ensures ShellWord(QuoteArgs(args)[i]) == Some(args[i]) {
      ShlexQuoteRoundTrip(args[i]);
    }
  }

  // ---------------------------------------------------------------------------------------------
  // How a POSIX shell reads one word back

  function Prepend(c: char, o: Option<string>): Option<string>
  {
    match o
    case None => None
    case Some(t) => Some([c] + t)
  }

  function PrependAll(s: string, o: Option<string>): Option<string>
  {
    match o
    case None => None
    case Some(t) => Some(s + t)
  }

  /** The value of a non-empty shell word, or None when it is empty, unterminated, or uses a character this reading does not cover. */
  function ShellWord(w: string): Option<string>
  {
    if w == [] then None else LexPlain(w)
  }

  /** Reading outside any quotes. */
  function LexPlain(w: string): Option<string>
    decreases |w|
  {
    if w == [] then Some([])
    else if w[0] == '\'' then LexSingle(w[1..])
    else if w[0] == '"' then LexDouble(w[1..])
    else if IsSafeChar(w[0]) then Prepend(w[0], LexPlain(w[1..]))
    else None
  }

  /** Reading inside single quotes: everything is literal up to the closing quote. */
  function LexSingle(w: string): Option<string>
    decreases |w|
  {
    if w == [] then None
    else if w[0] == '\'' then LexPlain(w[1..])
    else Prepend(w[0], LexSingle(w[1..]))
  }

  /** Reading inside double quotes, for text free of the characters that stay special there. */
  function LexDouble(w: string): Option<string>
    decreases |w|
  {
    if w == [] then None
    else if w[0] == '"' then LexPlain(w[1..])
    else if w[0] == '\\' || w[0] == '$' || w[0] == '`' then None
    else Prepend(w[0], LexDouble(w[1..]))
  }

  /** Characters that `shlex_quote` leaves bare read back as themselves. */
  lemma {:induction false} LexPlainSafe(s: string)
    requires IsSafe(s)
    ensures LexPlain(s) == Some(s)
  {
    if s != [] {
      assert IsSafe(s[1..]) by {
        forall i | 0 <= i < |s[1..]| ensures IsSafeChar(s[1..][i]) {
          assert s[1..][i] == s[i + 1];
        }
      }
      LexPlainSafe(s[1..]);
      assert IsSafeChar(s[0]);
      assert [s[0]] + s[1..] == s;
    }
  }

  /** Inside single quotes, the five characters an escaped quote becomes read back as that one quote. */
  lemma EscapedQuote(tail: string)
    ensures LexSingle("'\"'\"'" + tail) == Prepend('\'', LexSingle(tail))
  {
    var w0 := "'\"'\"'" + tail;
    var w1 := "\"'\"'" + tail;
    var w2 := "'\"'" + tail;
    var w3 := "\"'" + tail;
    var w4 := "'" + tail;
    assert w0[0] == '\'' && w0[1..] == w1;
    assert w1[0] == '"' && w1[1..] == w2;
    assert w2[0] == '\'' && w2[1..] == w3;
    assert w3[0] == '"' && w3[1..] == w4;
    assert w4[0] == '\'' && w4[1..] == tail;
    assert LexSingle(w0) == LexPlain(w1);
    assert LexPlain(w1) == LexDouble(w2);
    assert LexDouble(w2) == Prepend('\'', LexDouble(w3));
    assert LexDouble(w3) == LexPlain(w4);
    assert LexPlain(w4) == LexSingle(tail);
  }

  /** Inside single quotes, the escaped text reads back as the original, and reading goes on after the closing quote. */
  lemma {:induction false} LexSingleEscaped(s: string, rest: string)
    ensures LexSingle(EscapeQuotes(s) + "'" + rest) == PrependAll(s, LexPlain(rest))
  {
    if s == [] {
      assert EscapeQuotes(s) + "'" + rest == ['\''] + rest;
      assert (['\''] + rest)[1..] == rest;
      match LexPlain(rest)
      case None =>
      case Some(t) => assert s + t == t;
    } else {
      var head := if s[0] == '\'' then "'\"'\"'" else [s[0]];
      var tail := EscapeQuotes(s[1..]) + "'" + rest;
      assert EscapeQuotes(s) + "'" + rest == head + tail by {
        Regroup(head, EscapeQuotes(s[1..]), "'", rest);
      }
      assert LexSingle(head + tail) == Prepend(s[0], LexSingle(tail)) by {
        if s[0] == '\'' {
          EscapedQuote(tail);
        } else {
          var w := head + tail;
          assert w[0] == s[0] && w[1..] == tail;
        }
      }
      LexSingleEscaped(s[1..], rest);
      PrependOnto(s, LexPlain(rest));
    }
  }

  lemma Regroup<T>(a: seq<T>, b: seq<T>, c: seq<T>, d: seq<T>)
    ensures (a + b) + c + d == a + (b + c + d)
  {
  }

  lemma PrependOnto(s: string, o: Option<string>)
    requires s != []
    ensures Prepend(s[0], PrependAll(s[1..], o)) == PrependAll(s, o)
  {
    match o
    case None =>
    case Some(t) => assert [s[0]] + (s[1..] + t) == s + t;
  }

  /** A shell reads every quoted word back as the string that was quoted. */
  lemma {:induction false} ShlexQuoteRoundTrip(s: string)
    ensures ShellWord(ShlexQuote(s)) == Some(s)
  {
    if s == [] {
      assert ShellWord("''") == Some(s) by {
        assert "''"[1..] == "'";
        assert "'"[1..] == [];
      }
    } else if IsSafe(s) {
      LexPlainSafe(s);
    } else {
      var w := "'" + EscapeQuotes(s) + "'";
      assert LexPlain(w) == Some(s) by {
        assert w[1..] == EscapeQuotes(s) + "'" + [];
        LexSingleEscaped(s, []);
        assert s + [] == s;
      }
    }
  }
}

/**
 * The sshd side of ec2_ssh/auth.py: the helper script that sshd runs as its
 * AuthorizedKeysCommand, and the edit of /etc/ssh/sshd_config that points sshd at it
 * (`append_or_replace_ssh_config`, `configure_ssh_authorized_keys_command`).
 *
 * The program is Python 2 code: a str is a byte string, so `b(...)`, `os.linesep` and the
 * lines of the file are all the same kind of value, here `string`.
 */
module SshdConfig {
  import opened Wrappers
  import opened PyText
  import opened Utils
  import opened Posix

  const SSHD_CONFIG := "/etc/ssh/sshd_config"
  /** `os.linesep` on a POSIX host. */
  const LINESEP := "\n"
  const SCRIPT_DIR := "/opt/ec2-ssh"
  const SCRIPT_PATH := SCRIPT_DIR + "/ec2-ssh-print-keys"
  const CMD_PATH := "/usr/local/bin/ec2-ssh"
  /** 0o751: rwx for the owner, rx for the group, x for others. */
  const SCRIPT_MODE: Mode := 0x1E9

  // ---------------------------------------------------------------------------------------------
  // The directive patterns

  /** The regular expression `^keyword .*$`, searched (not matched across lines) in one line of the file. */
  datatype DirectivePattern = Directive(keyword: string)

  const KEYS_COMMAND := Directive("AuthorizedKeysCommand")
  const KEYS_COMMAND_USER := Directive("AuthorizedKeysCommandUser")
  /** `'AuthorizedKeysCommand %s' % AUTHORIZED_KEYS_COMMAND_SCRIPT_PATH` */
  const KEYS_COMMAND_LINE := KEYS_COMMAND.keyword + " " + SCRIPT_PATH
  /** `'AuthorizedKeysCommandUser root'` */
  const KEYS_COMMAND_USER_LINE := KEYS_COMMAND_USER.keyword + " " + "root"

  /**
   * `re.search('^kw .*$', s)` succeeds: `^` only at the start, then "kw ", then `.*`, which
   * stops at the first '\n', and `$`, which holds at the end or before a final '\n'.
   */
  predicate Matches(p: DirectivePattern, s: string)
  {
    |p.keyword| + 1 <= |s| && s[..|p.keyword| + 1] == p.keyword + " " &&
    NewlineOnlyAtEnd(s[|p.keyword| + 1..])
  }

  /** Adding the terminating '\n' to a line without one does not change whether it matches. */
  lemma MatchesTerminated(p: DirectivePattern, s: string)
    requires '\n' !in s
    ensures Matches(p, s + "\n") <==> Matches(p, s)
  {
    var k := |p.keyword| + 1;
    var t := s + "\n";
    if |s| >= k {
      assert t[..k] == s[..k];
      assert t[k..] == s[k..] + "\n";
      assert forall j :: 0 <= j < |s[k..]| ==> s[k..][j] == s[k + j];
    } else if |t| >= k {
      assert t[k - 1] == '\n';
      assert (p.keyword + " ")[k - 1] == ' ';
    }
  }

  /** A line that `append_or_replace_ssh_config` can be asked to put in place of the pattern's line. */
  predicate DirectiveLine(p: DirectivePattern, line: string)
  {
    Matches(p, line) && '\n' !in line && line[|line| - 1] != '\r'
  }

  /** No line matches both patterns. */
  ghost predicate Disjoint(p1: DirectivePattern, p2: DirectivePattern)
  {
    forall s :: Matches(p1, s) ==> !Matches(p2, s)
  }

  /** The two directives `configure_ssh_authorized_keys_command` writes satisfy what the lemmas below require of them. */
  lemma ConfigureDirectives()
    ensures DirectiveLine(KEYS_COMMAND, KEYS_COMMAND_LINE)
    ensures DirectiveLine(KEYS_COMMAND_USER, KEYS_COMMAND_USER_LINE)
    ensures Disjoint(KEYS_COMMAND, KEYS_COMMAND_USER) && Disjoint(KEYS_COMMAND_USER, KEYS_COMMAND)
  {
    KeysCommandLine();
    KeysCommandUserLine();
    KeywordsDiffer();
  }

  lemma KeysCommandLine()
    ensures DirectiveLine(KEYS_COMMAND, KEYS_COMMAND_LINE)
  {
    var k := |KEYS_COMMAND.keyword| + 1;
    assert KEYS_COMMAND_LINE[..k] == KEYS_COMMAND.keyword + " ";
    assert '\n' !in KEYS_COMMAND.keyword && '\n' !in SCRIPT_DIR && '\n' !in "/ec2-ssh-print-keys";
    assert KEYS_COMMAND_LINE[k..] == SCRIPT_PATH;
  }

  lemma KeysCommandUserLine()
    ensures DirectiveLine(KEYS_COMMAND_USER, KEYS_COMMAND_USER_LINE)
  {
    var k := |KEYS_COMMAND_USER.keyword| + 1;
    assert KEYS_COMMAND_USER_LINE[..k] == KEYS_COMMAND_USER.keyword + " ";
    assert '\n' !in KEYS_COMMAND_USER.keyword && '\n' !in "root";
    assert KEYS_COMMAND_USER_LINE[k..] == "root";
  }

  lemma KeywordsDiffer()
    ensures Disjoint(KEYS_COMMAND, KEYS_COMMAND_USER) && Disjoint(KEYS_COMMAND_USER, KEYS_COMMAND)
  {
    var k1, k2 := "AuthorizedKeysCommand ", "AuthorizedKeysCommandUser ";
    assert k1[21] == ' ' && k2[21] == 'U';
    forall s | Matches(KEYS_COMMAND, s) ensures !Matches(KEYS_COMMAND_USER, s) {
      assert s[21] == k1[21];
    }
    forall s | Matches(KEYS_COMMAND_USER, s) ensures !Matches(KEYS_COMMAND, s) {
      assert s[21] == k2[21];
    }
  }

  // ---------------------------------------------------------------------------------------------
  // append_or_replace_ssh_config on the lines of the file

  /** The index of the first line the pattern matches, as the `enumerate` loop with `break` finds it. */
  function FirstMatch(lines: seq<string>, p: DirectivePattern): (r: Option<nat>)
    ensures r.Some? ==> r.value < |lines| && Matches(p, lines[r.value])
    ensures r.Some? ==> forall j :: 0 <= j < r.value ==> !Matches(p, lines[j])
    ensures r.None? ==> forall j :: 0 <= j < |lines| ==> !Matches(p, lines[j])
  {
    if lines == [] then None
    else if Matches(p, lines[0]) then Some(0)
    else match FirstMatch(lines[1..], p)
      case None => None
      case Some(k) => Some(k + 1)
  }

  /** A matching line with no matching line before it is the first match. */
  lemma FirstMatchAt(lines: seq<string>, p: DirectivePattern, i: nat)
    requires i < |lines| && Matches(p, lines[i])
    requires forall j :: 0 <= j < i ==> !Matches(p, lines[j])
    ensures FirstMatch(lines, p) == Some(i)
  {
    var m := FirstMatch(lines, p);
    assert m.Some? ==> !(m.value < i) && !(m.value > i);
  }

  /** `lines[-1][-1]` on an empty file. */
  datatype UpsertError = IndexError

  /** The line `line` stands for, with its trailing '\r' and '\n' characters removed (`rstrip(b('\r\n'))`). */
  function Bare(s: string): string
  {
    RStripChars(s, B("\r\n"))
  }

  /**
   * `append_or_replace_ssh_config` as written, on the result of `readlines()`:
   *  - no line matches: the last character of the last line decides whether a separate
   *    line separator is appended first; then `line` and a separator are appended;
   *    an empty file (or an empty last line) raises IndexError;
   *  - the first matching line is replaced by `line` plus a separator when it differs from
   *    `line` once its line break is stripped, and by the bare `line` when it does not.
   */
  function Upsert(lines: seq<string>, p: DirectivePattern, line: string): Result<seq<string>, UpsertError>
  {
    match FirstMatch(lines, p)
    case None =>
      if lines == [] || lines[|lines| - 1] == [] then Err(IndexError)
      else
        var last := lines[|lines| - 1];
        var sep := if last[|last| - 1] == '\r' || last[|last| - 1] == '\n' then [] else [LINESEP];
        Ok(lines + sep + [line + LINESEP])
    case Some(i) =>
      Ok(lines[i := if Bare(lines[i]) != line then line + LINESEP else line])
  }

  /**
   * The evident intent: a line that already says `line` is kept as it is, a separator is
   * appended exactly when the file does not end with '\n', and an empty file just gets the
   * directive.
   */
  function UpsertFixed(lines: seq<string>, p: DirectivePattern, line: string): seq<string>
  {
    match FirstMatch(lines, p)
    case None =>
      lines + Separator(lines) + [line + LINESEP]
    case Some(i) =>
      if Bare(lines[i]) == line then lines else lines[i := line + LINESEP]
  }

  /** A separator is needed exactly when the text does not end with '\n' (an empty text needs none). */
  function Separator(lines: seq<string>): seq<string>
  {
    if lines == [] || lines[|lines| - 1] == [] || lines[|lines| - 1][|lines[|lines| - 1]| - 1] == '\n' then []
    else [LINESEP]
  }

  /** Which of the two definitions a host runs: the source's, or the corrected one. */
  datatype Revision = AsWritten | Corrected

  function UpsertBy(rev: Revision, lines: seq<string>, p: DirectivePattern, line: string): Result<seq<string>, UpsertError>
  {
    if rev == AsWritten then Upsert(lines, p, line) else Ok(UpsertFixed(lines, p, line))
  }

  /**
   * The shape of the upsert as written. With no match, the old lines stay as a prefix, a
   * separator is inserted exactly when the last line ends in neither '\r' nor '\n', and the
   * directive plus a separator comes last; an empty file or an empty last line raises IndexError.
   * With a match, only the first matching line changes: later lines that match are untouched.
   */
  lemma UpsertShape(lines: seq<string>, p: DirectivePattern, line: string)
    ensures FirstMatch(lines, p).None? ==>
      (Upsert(lines, p, line).Err? <==> lines == [] || lines[|lines| - 1] == [])
    ensures FirstMatch(lines, p).None? && Upsert(lines, p, line).Ok? ==>
      var r := Upsert(lines, p, line).value;
      var last := lines[|lines| - 1];
      var bare := last[|last| - 1] != '\r' && last[|last| - 1] != '\n';
      |r| == |lines| + (if bare then 2 else 1) && r[..|lines|] == lines &&
      (bare ==> r[|lines|] == LINESEP) && r[|r| - 1] == line + LINESEP
    ensures FirstMatch(lines, p).Some? ==>
      var i := FirstMatch(lines, p).value;
      Upsert(lines, p, line).Ok? &&
      var r := Upsert(lines, p, line).value;
      |r| == |lines| && (forall j :: 0 <= j < |r| && j != i ==> r[j] == lines[j]) &&
      r[i] == (if Bare(lines[i]) != line then line + LINESEP else line)
  {
    if FirstMatch(lines, p).None? && Upsert(lines, p, line).Ok? {
      var r := Upsert(lines, p, line).value;
      var last := lines[|lines| - 1];
      if last[|last| - 1] != '\r' && last[|last| - 1] != '\n' {
        assert r == lines + [LINESEP] + [line + LINESEP];
      } else {
        assert r == lines + [line + LINESEP];
      }
      assert r[..|lines|] == lines;
    }
  }

  /**
   * The shape of the corrected upsert. With no match, the old lines stay as a prefix, a
   * separator is inserted exactly when the file is non-empty and does not end with '\n', and
   * the directive plus a separator comes last. With a match, only the first matching line may
   * change, and it changes exactly when it does not already say the directive.
   */
  lemma UpsertFixedShape(lines: seq<string>, p: DirectivePattern, line: string)
    ensures FirstMatch(lines, p).None? ==>
      var r := UpsertFixed(lines, p, line);
      var open := lines != [] && lines[|lines| - 1] != [] && lines[|lines| - 1][|lines[|lines| - 1]| - 1] != '\n';
      |r| == |lines| + (if open then 2 else 1) && r[..|lines|] == lines &&
      (open ==> r[|lines|] == LINESEP) && r[|r| - 1] == line + LINESEP
    ensures FirstMatch(lines, p).Some? ==>
      var i := FirstMatch(lines, p).value;
      var r := UpsertFixed(lines, p, line);
      |r| == |lines| && (forall j :: 0 <= j < |r| && j != i ==> r[j] == lines[j]) &&
      r[i] == (if Bare(lines[i]) != line then line + LINESEP else lines[i])
  {
    if FirstMatch(lines, p).None? {
      var r := UpsertFixed(lines, p, line);
      assert r == lines + Separator(lines) + [line + LINESEP];
      assert r[..|lines|] == lines;
    }
  }

  /** The loop of `append_or_replace_ssh_config` and the branches after it. */
  method AppendOrReplaceLines(lines: seq<string>, p: DirectivePattern, line: string, rev: Revision)
    returns (r: Result<seq<string>, UpsertError>)
    ensures r == UpsertBy(rev, lines, p, line)
  {
    var index := -1;
    var lineno := 0;
    while lineno < |lines|
      invariant 0 <= lineno <= |lines|
      invariant forall j :: 0 <= j < lineno ==> !Matches(p, lines[j])
      invariant index == -1
    {
      if Matches(p, lines[lineno]) {
        index := lineno;
        break;
      }
      lineno := lineno + 1;
    }
    assert index == -1 ==> FirstMatch(lines, p).None?;
    if index != -1 {
      FirstMatchAt(lines, p, index);
    }
    var result := lines;
    if index == -1 {
      if rev == AsWritten {
        if result == [] || result[|result| - 1] == [] {
          return Err(IndexError);
        }
        var last := result[|result| - 1];
        if last[|last| - 1] != '\r' && last[|last| - 1] != '\n' {
          result := result + [LINESEP];
        }
      } else if result != [] {
        var last := result[|result| - 1];
        if last != [] && last[|last| - 1] != '\n' {
          result := result + [LINESEP];
        }
      }
      assert lines + [] == lines && [] + [line + LINESEP] == [line + LINESEP];
      result := result + [line + LINESEP];
    } else {
      var replacement := line;
      if Bare(result[index]) != line {
        replacement := line + LINESEP;
      }
      if rev == AsWritten || replacement != line {
        result := result[index := replacement];
      }
    }
    r := Ok(result);
  }

  // ---------------------------------------------------------------------------------------------
  // What the next reader of the file sees

  /** What `readlines()` returns after `writelines(lines)`. */
  function Reread(lines: seq<string>): seq<string>
  {
    ReadLines(JoinLines(lines))
  }

  /** The first line that matches `p` already says `line`. */
  predicate Settled(lines: seq<string>, p: DirectivePattern, line: string)
  {
    var m := FirstMatch(lines, p);
    m.Some? && Bare(lines[m.value]) == line
  }

  /** The lines with a '\n' added to the last one when it lacks one. */
  function Terminated(lines: seq<string>): seq<string>
  {
    if lines == [] || lines[|lines| - 1] == [] || lines[|lines| - 1][|lines[|lines| - 1]| - 1] == '\n' then lines
    else lines[..|lines| - 1] + [lines[|lines| - 1] + "\n"]
  }

  lemma JoinOne(x: string)
    ensures JoinLines([x]) == x
  {
    assert [x][1..] == [];
  }

  lemma JoinSnoc(a: seq<string>, x: string)
    ensures JoinLines(a + [x]) == JoinLines(a) + x
  {
    JoinLinesAppend(a, [x]);
    JoinOne(x);
  }

  /** Terminating the last line leaves every line terminated and the lines well formed. */
  lemma TerminatedWellFormed(lines: seq<string>)
    requires WellFormedLines(lines)
    ensures WellFormedLines(Terminated(lines)) && |Terminated(lines)| == |lines|
    ensures forall i :: 0 <= i < |lines| ==> Terminated(lines)[i][|Terminated(lines)[i]| - 1] == '\n'
    ensures forall i :: 0 <= i < |lines| - 1 ==> Terminated(lines)[i] == lines[i]
  {
    var n := |lines|;
    var t := Terminated(lines);
    if n > 0 && lines[n - 1][|lines[n - 1]| - 1] != '\n' {
      var last := lines[n - 1];
      var x := last + "\n";
      assert NewlineOnlyAtEnd(x) by {
        assert forall j :: 0 <= j < |last| ==> x[j] == last[j];
      }
      assert t == lines[n - 1 := x];
      forall i | 0 <= i < n
        ensures t[i] != [] && NewlineOnlyAtEnd(t[i]) && t[i][|t[i]| - 1] == '\n'
      {
        if i < n - 1 {
          assert t[i] == lines[i];
        } else {
          assert t[i] == x;
        }
      }
    } else {
      assert t == lines;
    }
  }

  /** Terminating the last line writes the same bytes as appending a separate separator. */
  lemma TerminatedJoin(lines: seq<string>)
    requires lines != [] && lines[|lines| - 1] != [] && lines[|lines| - 1][|lines[|lines| - 1]| - 1] != '\n'
    ensures JoinLines(Terminated(lines)) == JoinLines(lines + [LINESEP])
  {
    var n := |lines|;
    var front, last := lines[..n - 1], lines[n - 1];
    assert lines == front + [last];
    JoinSnoc(front, last + "\n");
    JoinSnoc(lines, LINESEP);
    JoinSnoc(front, last);
  }

  /** Appending a terminated line to terminated lines keeps them well formed. */
  lemma WellFormedSnoc(lines: seq<string>, x: string)
    requires WellFormedLines(lines)
    requires forall i :: 0 <= i < |lines| ==> lines[i][|lines[i]| - 1] == '\n'
    requires x != [] && NewlineOnlyAtEnd(x)
    ensures WellFormedLines(lines + [x])
  {
    var r := lines + [x];
    forall i | 0 <= i < |r|
      ensures r[i] != [] && NewlineOnlyAtEnd(r[i]) && (i < |r| - 1 ==> r[i][|r[i]| - 1] == '\n')
    {
      if i < |lines| {
        assert r[i] == lines[i];
      }
    }
  }

  /** Terminated well-formed lines followed by a terminated line and one more line are well formed. */
  lemma WellFormedTwoMore(lines: seq<string>, a: string, b: string)
    requires WellFormedLines(lines) && (lines != [] ==> lines[|lines| - 1][|lines[|lines| - 1]| - 1] == '\n')
    requires a != [] && NewlineOnlyAtEnd(a) && a[|a| - 1] == '\n'
    requires b != [] && NewlineOnlyAtEnd(b)
    ensures WellFormedLines(lines + [a] + [b])
  {
    var r := lines + [a] + [b];
    forall i | 0 <= i < |r|
      ensures r[i] != [] && NewlineOnlyAtEnd(r[i]) && (i < |r| - 1 ==> r[i][|r[i]| - 1] == '\n')
    {
      if i < |lines| {
        assert r[i] == lines[i];
      }
    }
  }

  /** Replacing one line by a terminated line keeps the lines well formed. */
  lemma WellFormedUpdate(lines: seq<string>, i: nat, x: string)
    requires WellFormedLines(lines) && i < |lines|
    requires x != [] && NewlineOnlyAtEnd(x) && x[|x| - 1] == '\n'
    ensures WellFormedLines(lines[i := x])
  {
  }

  /** A directive line, terminated, is one well-formed line that still matches and still says the directive. */
  lemma TerminatedDirective(p: DirectivePattern, line: string)
    requires DirectiveLine(p, line)
    ensures var x := line + LINESEP;
      x != [] && NewlineOnlyAtEnd(x) && x[|x| - 1] == '\n' && Matches(p, x) && Bare(x) == line && Bare(line) == line
  {
    MatchesTerminated(p, line);
    var x := line + LINESEP;
    assert x[..|x| - 1] == line;
    assert forall j :: 0 <= j < |line| ==> x[j] == line[j];
  }

  /** Adding or dropping the final '\n' does not change the bare line. */
  lemma BareTerminated(s: string)
    ensures Bare(s + "\n") == Bare(s)
  {
    assert (s + "\n")[..|s|] == s;
  }

  /** Well-formed lines with one line replaced by a terminated line read back as written. */
  lemma RereadReplace(lines: seq<string>, i: nat, x: string)
    requires WellFormedLines(lines) && i < |lines|
    requires x != [] && NewlineOnlyAtEnd(x) && x[|x| - 1] == '\n'
    ensures Reread(lines[i := x]) == lines[i := x]
  {
    WellFormedUpdate(lines, i, x);
    JoinReadLines(lines[i := x]);
  }

  /** Appending a line after the corrected separator reads back as the terminated lines followed by that line. */
  lemma RereadAppend(lines: seq<string>, x: string)
    requires WellFormedLines(lines)
    requires x != [] && NewlineOnlyAtEnd(x)
    ensures Reread(lines + Separator(lines) + [x]) == Terminated(lines) + [x]
  {
    TerminatedWellFormed(lines);
    var t := Terminated(lines);
    WellFormedSnoc(t, x);
    JoinReadLines(t + [x]);
    if Separator(lines) != [] {
      TerminatedJoin(lines);
      JoinSnoc(lines + [LINESEP], x);
      JoinSnoc(t, x);
    } else {
      assert lines + Separator(lines) == lines == t;
    }
  }

  /** The terminated last line matches exactly when the last line did. */
  lemma TerminatedMatches(lines: seq<string>, p: DirectivePattern)
    requires WellFormedLines(lines)
    ensures forall j :: 0 <= j < |lines| ==> (Matches(p, Terminated(lines)[j]) <==> Matches(p, lines[j]))
    ensures forall j :: 0 <= j < |lines| ==> Bare(Terminated(lines)[j]) == Bare(lines[j])
  {
    TerminatedWellFormed(lines);
    var n := |lines|;
    if n > 0 && lines[n - 1][|lines[n - 1]| - 1] != '\n' {
      var last := lines[n - 1];
      assert '\n' !in last by {
        assert forall j :: 0 <= j < |last| ==> last[j] != '\n';
      }
      MatchesTerminated(p, last);
      BareTerminated(last);
    }
  }

  /** Replacing the first matching line by the terminated directive leaves the directive settled. */
  lemma ReplacedSettles(lines: seq<string>, p: DirectivePattern, line: string, i: nat)
    requires WellFormedLines(lines) && DirectiveLine(p, line)
    requires FirstMatch(lines, p) == Some(i)
    ensures Settled(Reread(lines[i := line + LINESEP]), p, line)
  {
    var x := line + LINESEP;
    TerminatedDirective(p, line);
    RereadReplace(lines, i, x);
    var r := lines[i := x];
    assert forall j :: 0 <= j < i ==> r[j] == lines[j];
    FirstMatchAt(r, p, i);
  }

  /** Appending the terminated directive to lines that do not match leaves the directive settled. */
  lemma AppendedSettles(lines: seq<string>, p: DirectivePattern, line: string)
    requires WellFormedLines(lines) && DirectiveLine(p, line)
    requires FirstMatch(lines, p).None?
    ensures Settled(Reread(lines + Separator(lines) + [line + LINESEP]), p, line)
  {
    var x := line + LINESEP;
    TerminatedDirective(p, line);
    RereadAppend(lines, x);
    AppendedFirstMatch(lines, p, line);
    assert (Terminated(lines) + [x])[|lines|] == x;
  }

  /** Below lines none of which matches, the appended directive is the first match. */
  lemma AppendedFirstMatch(lines: seq<string>, p: DirectivePattern, line: string)
    requires WellFormedLines(lines) && DirectiveLine(p, line)
    requires FirstMatch(lines, p).None?
    ensures FirstMatch(Terminated(lines) + [line + LINESEP], p) == Some(|lines|)
  {
    var x, tl := line + LINESEP, Terminated(lines);
    var t := tl + [x];
    TerminatedDirective(p, line);
    TerminatedMatches(lines, p);
    assert |tl| == |lines|;
    forall j | 0 <= j < |lines|
      ensures !Matches(p, t[j])
    {
      assert t[j] == tl[j];
    }
    assert t[|lines|] == x;
    FirstMatchAt(t, p, |lines|);
  }

  /**
   * With the corrected definition, whatever the file held, the next reader finds the
   * directive: the first line matching `p` says `line`.
   */
  lemma FixedSettles(lines: seq<string>, p: DirectivePattern, line: string)
    requires WellFormedLines(lines) && DirectiveLine(p, line)
    ensures Settled(Reread(UpsertFixed(lines, p, line)), p, line)
  {
    var m := FirstMatch(lines, p);
    if m.None? {
      AppendedSettles(lines, p, line);
    } else if Bare(lines[m.value]) == line {
      assert UpsertFixed(lines, p, line) == lines;
      JoinReadLines(lines);
    } else {
      ReplacedSettles(lines, p, line, m.value);
    }
  }

  /**
   * With the corrected definition, upserting one directive keeps another directive settled,
   * provided no line can match both patterns.
   */
  lemma FixedKeepsSettled(lines: seq<string>, p1: DirectivePattern, l1: string, p2: DirectivePattern, l2: string)
    requires WellFormedLines(lines) && Settled(lines, p1, l1)
    requires DirectiveLine(p2, l2) && Disjoint(p2, p1)
    ensures Settled(Reread(UpsertFixed(lines, p2, l2)), p1, l1)
  {
    var x := l2 + LINESEP;
    TerminatedDirective(p2, l2);
    var m := FirstMatch(lines, p2);
    if m.None? {
      RereadAppend(lines, x);
      AppendKeepsSettled(lines, p1, l1, x);
    } else if Bare(lines[m.value]) == l2 {
      assert UpsertFixed(lines, p2, l2) == lines;
      JoinReadLines(lines);
    } else {
      RereadReplace(lines, m.value, x);
      ReplaceKeepsSettled(lines, p1, l1, m.value, x);
    }
  }

  /** Terminating the lines and appending one more keeps a directive settled. */
  lemma AppendKeepsSettled(lines: seq<string>, p: DirectivePattern, line: string, x: string)
    requires WellFormedLines(lines) && Settled(lines, p, line)
    ensures Settled(Terminated(lines) + [x], p, line)
  {
    var k := FirstMatch(lines, p).value;
    TerminatedMatches(lines, p);
    var u := Terminated(lines);
    var t := u + [x];
    assert forall j :: 0 <= j < k ==> t[j] == u[j] && !Matches(p, u[j]);
    assert t[k] == u[k] && Matches(p, u[k]) && Bare(u[k]) == line;
    FirstMatchAt(t, p, k);
  }

  /** Replacing a line that does not match `p` keeps the directive of `p` settled. */
  lemma ReplaceKeepsSettled(lines: seq<string>, p: DirectivePattern, line: string, i: nat, x: string)
    requires Settled(lines, p, line) && i < |lines| && !Matches(p, lines[i]) && !Matches(p, x)
    ensures Settled(lines[i := x], p, line)
  {
    var k := FirstMatch(lines, p).value;
    var r := lines[i := x];
    assert i != k;
    assert forall j :: 0 <= j < k ==> !Matches(p, r[j]);
    FirstMatchAt(r, p, k);
  }

  // ---------------------------------------------------------------------------------------------
  // The edit of the whole file

  /** The content of sshd_config after `append_or_replace_ssh_config(p, line)` (the temporary copy aside). */
  function UpsertText(rev: Revision, content: string, p: DirectivePattern, line: string): Result<string, UpsertError>
  {
    match UpsertBy(rev, ReadLines(content), p, line)
    case Ok(lines) => Ok(JoinLines(lines))
    case Err(e) => Err(e)
  }

  /** The content of sshd_config after `configure_ssh_authorized_keys_command`: the command, then its user. */
  function ConfigureText(rev: Revision, content: string): Result<string, UpsertError>
  {
    UpsertBoth(rev, content, KEYS_COMMAND, KEYS_COMMAND_LINE, KEYS_COMMAND_USER, KEYS_COMMAND_USER_LINE)
  }

  /** A file whose directive is settled is left byte for byte as it is by the corrected upsert. */
  lemma SettledTextUnchanged(content: string, p: DirectivePattern, line: string)
    requires Settled(ReadLines(content), p, line)
    ensures UpsertText(Corrected, content, p, line) == Ok(content)
  {
    ReadLinesJoin(content);
  }

  /** The corrected upsert is idempotent on every file. */
  lemma FixedUpsertIdempotent(content: string, p: DirectivePattern, line: string)
    requires DirectiveLine(p, line)
    ensures var once := UpsertText(Corrected, content, p, line).value;
      UpsertText(Corrected, once, p, line) == Ok(once)
  {
    ReadLinesJoin(content);
    FixedSettles(ReadLines(content), p, line);
    SettledTextUnchanged(UpsertText(Corrected, content, p, line).value, p, line);
  }

  /**
   * With the corrected upsert, configuring twice gives the same sshd_config as configuring
   * once, whatever the file held.
   */
  lemma FixedConfigureIdempotent(content: string)
    ensures ConfigureText(Corrected, content).Ok?
    ensures var once := ConfigureText(Corrected, content).value;
      ConfigureText(Corrected, once) == Ok(once)
  {
    ConfigureDirectives();
    ReadLinesJoin(content);
    var c1 := UpsertText(Corrected, content, KEYS_COMMAND, KEYS_COMMAND_LINE).value;
    FixedSettles(ReadLines(content), KEYS_COMMAND, KEYS_COMMAND_LINE);
    ReadLinesJoin(c1);
    var c2 := UpsertText(Corrected, c1, KEYS_COMMAND_USER, KEYS_COMMAND_USER_LINE).value;
    FixedSettles(ReadLines(c1), KEYS_COMMAND_USER, KEYS_COMMAND_USER_LINE);
    FixedKeepsSettled(ReadLines(c1), KEYS_COMMAND, KEYS_COMMAND_LINE, KEYS_COMMAND_USER, KEYS_COMMAND_USER_LINE);
    SettledTextUnchanged(c2, KEYS_COMMAND, KEYS_COMMAND_LINE);
    SettledTextUnchanged(c2, KEYS_COMMAND_USER, KEYS_COMMAND_USER_LINE);
  }

  // ---------------------------------------------------------------------------------------------
  // The definition as written, where it differs

  /** The last line of a non-empty text ends with the text's last character. */
  lemma LastLineEnd(content: string)
    requires content != []
    ensures var lines := ReadLines(content);
      lines != [] && lines[|lines| - 1] != [] &&
      lines[|lines| - 1][|lines[|lines| - 1]| - 1] == content[|content| - 1]
  {
    ReadLinesJoin(content);
    var lines := ReadLines(content);
    assert lines != [];
    JoinedEnd(lines);
  }

  /** Well-formed lines, written back to back, end with the last character of the last line. */
  lemma JoinedEnd(lines: seq<string>)
    requires WellFormedLines(lines) && lines != []
    ensures var c := JoinLines(lines); var last := lines[|lines| - 1];
      last != [] && c != [] && c[|c| - 1] == last[|last| - 1]
  {
    var n := |lines|;
    var front, last := lines[..n - 1], lines[n - 1];
    assert lines == front + [last];
    JoinSnoc(front, last);
  }

  /** All lines but the last of well-formed lines are terminated well-formed lines. */
  lemma WellFormedFront(lines: seq<string>, k: nat)
    requires WellFormedLines(lines) && k < |lines|
    ensures WellFormedLines(lines[..k])
    ensures forall j :: 0 <= j < k ==> lines[..k][j][|lines[..k][j]| - 1] == '\n'
  {
  }

  lemma WellFormedBack(lines: seq<string>, k: nat)
    requires WellFormedLines(lines) && k <= |lines|
    ensures WellFormedLines(lines[k..])
  {
    var b := lines[k..];
    assert forall j :: 0 <= j < |b| ==> b[j] == lines[k + j];
  }

  /** Terminated well-formed lines followed by well-formed lines are well formed. */
  lemma WellFormedConcat(a: seq<string>, b: seq<string>)
    requires WellFormedLines(a) && WellFormedLines(b)
    requires b != [] ==> forall j :: 0 <= j < |a| ==> a[j][|a[j]| - 1] == '\n'
    ensures WellFormedLines(a + b)
  {
    var c := a + b;
    if b == [] {
      assert c == a;
    }
    forall j | 0 <= j < |c|
      ensures c[j] != [] && NewlineOnlyAtEnd(c[j]) && (j < |c| - 1 ==> c[j][|c[j]| - 1] == '\n')
    {
      if j < |a| {
        assert c[j] == a[j];
      } else {
        assert c[j] == b[j - |a|];
      }
    }
  }

  /** A text without '\n' put in front of a well-formed line gives a well-formed line with the same end. */
  lemma Fused(a: string, b: string)
    requires '\n' !in a && b != [] && NewlineOnlyAtEnd(b)
    ensures a + b != [] && NewlineOnlyAtEnd(a + b) && (a + b)[|a + b| - 1] == b[|b| - 1]
  {
    var c := a + b;
    forall j | 0 <= j < |c| - 1 ensures c[j] != '\n' {
      if j < |a| {
        assert c[j] == a[j];
      } else {
        assert c[j] == b[j - |a|];
      }
    }
  }

  /** Writing `x` and `y` as two list entries writes the same bytes as writing `x + y` as one. */
  lemma JoinSplice(front: seq<string>, x: string, y: string, rest: seq<string>)
    ensures JoinLines(front + [x] + [y] + rest) == JoinLines(front + [x + y] + rest)
  {
    JoinLinesAppend(front + [x] + [y], rest);
    JoinSnoc(front + [x], y);
    JoinSnoc(front, x);
    JoinLinesAppend(front + [x + y], rest);
    JoinSnoc(front, x + y);
  }

  /**
   * As written, when the line that matches already says `line` and is not the last line,
   * the bare `line` is written without its line break, and the next reader sees it fused
   * with the line after it.
   */
  lemma EqualLineFuses(lines: seq<string>, p: DirectivePattern, line: string, i: nat)
    requires WellFormedLines(lines) && '\n' !in line
    requires FirstMatch(lines, p) == Some(i) && Bare(lines[i]) == line && i + 1 < |lines|
    ensures Upsert(lines, p, line).Ok?
    ensures Reread(Upsert(lines, p, line).value) == lines[..i] + [line + lines[i + 1]] + lines[i + 2..]
  {
    var r := Upsert(lines, p, line).value;
    var front, next, rest := lines[..i], lines[i + 1], lines[i + 2..];
    assert r == front + [line] + [next] + rest;
    JoinSplice(front, line, next, rest);
    WellFormedFront(lines, i);
    WellFormedBack(lines, i + 2);
    Fused(line, next);
    WellFormedSnoc(front, line + next);
    assert rest != [] ==> next[|next| - 1] == '\n';
    WellFormedConcat(front + [line + next], rest);
    JoinReadLines(front + [line + next] + rest);
  }

  /** Well-formed lines whose last line lacks '\n', with `x` glued onto that last line, read back as written. */
  lemma RereadGlued(lines: seq<string>, x: string)
    requires WellFormedLines(lines) && lines != []
    requires lines[|lines| - 1][|lines[|lines| - 1]| - 1] != '\n'
    requires x != [] && NewlineOnlyAtEnd(x)
    ensures var n := |lines|;
      Reread(lines + [x]) == lines[..n - 1] + [lines[n - 1] + x]
  {
    var n := |lines|;
    var front, last := lines[..n - 1], lines[n - 1];
    assert lines + [x] == front + [last] + [x] + [];
    JoinSplice(front, last, x, []);
    assert '\n' !in last by {
      assert forall j :: 0 <= j < |last| ==> last[j] != '\n';
    }
    Fused(last, x);
    WellFormedFront(lines, n - 1);
    WellFormedSnoc(front, last + x);
    assert front + [last + x] + [] == front + [last + x];
    JoinReadLines(front + [last + x]);
  }

  /**
   * As written, when nothing matches and the file ends with a bare '\r', no separator is
   * added, so the directive is glued onto the last line and never becomes a line of its own.
   */
  lemma CarriageReturnGlues(lines: seq<string>, p: DirectivePattern, line: string)
    requires WellFormedLines(lines) && DirectiveLine(p, line)
    requires FirstMatch(lines, p).None? && lines != []
    requires lines[|lines| - 1][|lines[|lines| - 1]| - 1] == '\r'
    ensures Upsert(lines, p, line).Ok?
    ensures var n := |lines|;
      Reread(Upsert(lines, p, line).value) == lines[..n - 1] + [lines[n - 1] + (line + LINESEP)]
    ensures line + LINESEP !in Reread(Upsert(lines, p, line).value)
  {
    var n := |lines|;
    var x := line + LINESEP;
    TerminatedDirective(p, line);
    assert Upsert(lines, p, line).value == lines + [x];
    RereadGlued(lines, x);
    var w := lines[..n - 1] + [lines[n - 1] + x];
    assert forall j :: 0 <= j < n - 1 ==> w[j] == lines[j];
    assert |w[n - 1]| > |x|;
  }

  /** As written, an empty sshd_config makes `lines[-1][-1]` raise IndexError; the corrected upsert writes the directive. */
  lemma EmptyConfig(p: DirectivePattern, line: string)
    ensures UpsertText(AsWritten, [], p, line) == Err(IndexError)
    ensures UpsertText(Corrected, [], p, line) == Ok(line + LINESEP)
  {
    assert ReadLines([]) == [];
    assert [] + [line + LINESEP] == [line + LINESEP];
    JoinOne(line + LINESEP);
  }

  /** A line that matches keeps matching when a well-formed line is appended to it. */
  lemma MatchesExtended(p: DirectivePattern, a: string, b: string)
    requires Matches(p, a) && '\n' !in a && b != [] && NewlineOnlyAtEnd(b)
    ensures Matches(p, a + b)
  {
    var k := |p.keyword| + 1;
    var c := a + b;
    Fused(a, b);
    assert c[..k] == a[..k];
    assert forall j :: 0 <= j < |c[k..]| ==> c[k..][j] == c[k + j];
  }

  /** Terminated well-formed lines with one more line read back as written. */
  lemma RereadSnoc(lines: seq<string>, x: string)
    requires WellFormedLines(lines) && (lines != [] ==> lines[|lines| - 1][|lines[|lines| - 1]| - 1] == '\n')
    requires x != [] && NewlineOnlyAtEnd(x)
    ensures Reread(lines + [x]) == lines + [x]
  {
    assert forall j :: 0 <= j < |lines| ==> lines[j][|lines[j]| - 1] == '\n';
    WellFormedSnoc(lines, x);
    JoinReadLines(lines + [x]);
  }

  /** As written, with no match and a last line ending in '\n', the directive and a separator are appended. */
  lemma UpsertAppendsAsWritten(lines: seq<string>, p: DirectivePattern, line: string)
    requires FirstMatch(lines, p).None? && lines != [] && lines[|lines| - 1] != []
    requires lines[|lines| - 1][|lines[|lines| - 1]| - 1] == '\n'
    ensures Upsert(lines, p, line) == Ok(lines + [line + LINESEP])
  {
    assert lines + [] == lines;
  }

  /**
   * As written, on a file that ends with '\n' and has no line for `p`, the directive and a
   * separator are appended and read back as one more line.
   */
  lemma AppendedAsWritten(content: string, p: DirectivePattern, line: string)
    requires content != [] && content[|content| - 1] == '\n'
    requires FirstMatch(ReadLines(content), p).None? && DirectiveLine(p, line)
    ensures UpsertText(AsWritten, content, p, line) == Ok(content + (line + LINESEP))
    ensures ReadLines(content + (line + LINESEP)) == ReadLines(content) + [line + LINESEP]
  {
    AppendedTextAsWritten(content, p, line);
    AppendedLinesAsWritten(content, p, line);
  }

  lemma AppendedTextAsWritten(content: string, p: DirectivePattern, line: string)
    requires content != [] && content[|content| - 1] == '\n'
    requires FirstMatch(ReadLines(content), p).None?
    ensures UpsertText(AsWritten, content, p, line) == Ok(content + (line + LINESEP))
  {
    var lines := ReadLines(content);
    LastLineEnd(content);
    UpsertAppendsAsWritten(lines, p, line);
    ReadLinesJoin(content);
    JoinSnoc(lines, line + LINESEP);
  }

  lemma AppendedLinesAsWritten(content: string, p: DirectivePattern, line: string)
    requires content != [] && content[|content| - 1] == '\n'
    requires DirectiveLine(p, line)
    ensures ReadLines(content + (line + LINESEP)) == ReadLines(content) + [line + LINESEP]
  {
    var x := line + LINESEP;
    TerminatedDirective(p, line);
    ReadLinesJoin(content);
    JoinedSnoc(ReadLines(content), content, x);
  }

  /** Lines that join to a text ending in '\n', with one more line, reread as themselves. */
  lemma JoinedSnoc(lines: seq<string>, c: string, x: string)
    requires WellFormedLines(lines) && JoinLines(lines) == c && c != [] && c[|c| - 1] == '\n'
    requires x != [] && NewlineOnlyAtEnd(x)
    ensures JoinLines(lines + [x]) == c + x && Reread(lines + [x]) == lines + [x]
  {
    assert lines != [];
    JoinedEnd(lines);
    JoinSnoc(lines, x);
    RereadSnoc(lines, x);
  }

  /** Appending a line that does not match keeps "no line matches". */
  lemma NoMatchSnoc(lines: seq<string>, x: string, p: DirectivePattern)
    requires FirstMatch(lines, p).None? && !Matches(p, x)
    ensures FirstMatch(lines + [x], p).None?
  {
    var r := lines + [x];
    assert forall j :: 0 <= j < |lines| ==> r[j] == lines[j];
  }

  /** Both upserts, in order; `configure_ssh_authorized_keys_command` is this with its two directives. */
  function UpsertBoth(rev: Revision, content: string, p1: DirectivePattern, l1: string, p2: DirectivePattern, l2: string): Result<string, UpsertError>
  {
    match UpsertText(rev, content, p1, l1)
    case Ok(c) => UpsertText(rev, c, p2, l2)
    case Err(e) => Err(e)
  }

  lemma UpsertBothOk(rev: Revision, content: string, p1: DirectivePattern, l1: string, p2: DirectivePattern, l2: string, c1: string, c2: string)
    requires UpsertText(rev, content, p1, l1) == Ok(c1) && UpsertText(rev, c1, p2, l2) == Ok(c2)
    ensures UpsertBoth(rev, content, p1, l1, p2, l2) == Ok(c2)
  {
  }

  /** As written, on a file that ends with '\n' and holds neither directive, both are appended on lines of their own. */
  lemma FirstUpsertBothAsWritten(content: string, p1: DirectivePattern, l1: string, p2: DirectivePattern, l2: string)
    requires DirectiveLine(p1, l1) && DirectiveLine(p2, l2) && Disjoint(p1, p2)
    requires content != [] && content[|content| - 1] == '\n'
    requires FirstMatch(ReadLines(content), p1).None? && FirstMatch(ReadLines(content), p2).None?
    ensures UpsertBoth(AsWritten, content, p1, l1, p2, l2) == Ok(content + (l1 + LINESEP) + (l2 + LINESEP))
    ensures ReadLines(content + (l1 + LINESEP) + (l2 + LINESEP)) == ReadLines(content) + [l1 + LINESEP] + [l2 + LINESEP]
  {
    var x1, x2 := l1 + LINESEP, l2 + LINESEP;
    AppendedAsWritten(content, p1, l1);
    SecondAppended(content, p1, l1, p2, l2);
    UpsertBothOk(AsWritten, content, p1, l1, p2, l2, content + x1, content + x1 + x2);
  }

  /** The step of the lemma above that appends the second directive after the first. */
  lemma SecondAppended(content: string, p1: DirectivePattern, l1: string, p2: DirectivePattern, l2: string)
    requires DirectiveLine(p1, l1) && DirectiveLine(p2, l2) && Disjoint(p1, p2)
    requires FirstMatch(ReadLines(content), p2).None?
    requires ReadLines(content + (l1 + LINESEP)) == ReadLines(content) + [l1 + LINESEP]
    ensures UpsertText(AsWritten, content + (l1 + LINESEP), p2, l2) == Ok(content + (l1 + LINESEP) + (l2 + LINESEP))
    ensures ReadLines(content + (l1 + LINESEP) + (l2 + LINESEP)) == ReadLines(content) + [l1 + LINESEP] + [l2 + LINESEP]
  {
    var lines := ReadLines(content);
    var x1, x2 := l1 + LINESEP, l2 + LINESEP;
    TerminatedDirective(p1, l1);
    var c1 := content + x1;
    assert !Matches(p2, x1);
    NoMatchSnoc(lines, x1, p2);
    assert c1[|c1| - 1] == '\n';
    AppendedAsWritten(c1, p2, l2);
  }

  /**
   * As written, upserting both directives a second time writes the first one back bare,
   * fusing it with the second, and appends the second again.
   */
  lemma SecondUpsertBothFuses(content: string, p1: DirectivePattern, l1: string, p2: DirectivePattern, l2: string)
    requires DirectiveLine(p1, l1) && DirectiveLine(p2, l2) && Disjoint(p1, p2)
    requires content != [] && content[|content| - 1] == '\n'
    requires FirstMatch(ReadLines(content), p1).None? && FirstMatch(ReadLines(content), p2).None?
    ensures var once := content + (l1 + LINESEP) + (l2 + LINESEP);
      UpsertBoth(AsWritten, once, p1, l1, p2, l2) == Ok(content + l1 + (l2 + LINESEP) + (l2 + LINESEP))
    ensures ReadLines(content + l1 + (l2 + LINESEP) + (l2 + LINESEP)) ==
      ReadLines(content) + [l1 + (l2 + LINESEP)] + [l2 + LINESEP]
  {
    var x1, x2 := l1 + LINESEP, l2 + LINESEP;
    FirstUpsertBothAsWritten(content, p1, l1, p2, l2);
    FirstUpsertFuses(content, p1, l1, p2, l2);
    FusedReappended(content, p1, l1, p2, l2);
    UpsertBothOk(AsWritten, content + x1 + x2, p1, l1, p2, l2, content + l1 + x2, content + l1 + x2 + x2);
  }

  /** The first step of the lemma above: the first directive is found and, being equal, written back bare. */
  lemma FirstUpsertFuses(content: string, p1: DirectivePattern, l1: string, p2: DirectivePattern, l2: string)
    requires DirectiveLine(p1, l1) && DirectiveLine(p2, l2)
    requires content != [] && content[|content| - 1] == '\n'
    requires FirstMatch(ReadLines(content), p1).None?
    requires ReadLines(content + (l1 + LINESEP) + (l2 + LINESEP)) == ReadLines(content) + [l1 + LINESEP] + [l2 + LINESEP]
    ensures UpsertText(AsWritten, content + (l1 + LINESEP) + (l2 + LINESEP), p1, l1) == Ok(content + l1 + (l2 + LINESEP))
    ensures ReadLines(content + l1 + (l2 + LINESEP)) == ReadLines(content) + [l1 + (l2 + LINESEP)]
  {
    var lines := ReadLines(content);
    var x1, x2 := l1 + LINESEP, l2 + LINESEP;
    var u := (lines + [x1] + [x2])[|lines| := l1];
    assert Upsert(lines + [x1] + [x2], p1, l1) == Ok(u) && Reread(u) == lines + [l1 + x2] by {
      TerminatedDirective(p2, l2);
      LastLineEnd(content);
      ReadLinesJoin(content);
      FusedLines(lines, p1, l1, x2);
    }
    assert JoinLines(u) == content + l1 + x2 by {
      ReadLinesJoin(content);
      FirstUpsertFusedText(lines, l1, x1, x2);
    }
  }

  /** On lines, the first step: the equal line is written back bare and reads back fused with the line after it. */
  lemma FusedLines(lines: seq<string>, p: DirectivePattern, line: string, x: string)
    requires WellFormedLines(lines) && (lines != [] ==> lines[|lines| - 1][|lines[|lines| - 1]| - 1] == '\n')
    requires FirstMatch(lines, p).None? && DirectiveLine(p, line)
    requires x != [] && NewlineOnlyAtEnd(x) && x[|x| - 1] == '\n'
    ensures Upsert(lines + [line + LINESEP] + [x], p, line) == Ok((lines + [line + LINESEP] + [x])[|lines| := line])
    ensures Reread((lines + [line + LINESEP] + [x])[|lines| := line]) == lines + [line + x]
  {
    var n := |lines|;
    var lines2 := lines + [line + LINESEP] + [x];
    TerminatedDirective(p, line);
    assert forall j :: 0 <= j < n ==> lines2[j] == lines[j];
    FirstMatchAt(lines2, p, n);
    WellFormedTwoMore(lines, line + LINESEP, x);
    EqualLineFuses(lines2, p, line, n);
    assert lines2[..n] == lines && lines2[n + 2..] == [];
  }

  /** The second step: the fused line matches the first pattern, so not the second, which is appended again. */
  lemma FusedReappended(content: string, p1: DirectivePattern, l1: string, p2: DirectivePattern, l2: string)
    requires DirectiveLine(p1, l1) && DirectiveLine(p2, l2) && Disjoint(p1, p2)
    requires FirstMatch(ReadLines(content), p2).None?
    requires ReadLines(content + l1 + (l2 + LINESEP)) == ReadLines(content) + [l1 + (l2 + LINESEP)]
    ensures UpsertText(AsWritten, content + l1 + (l2 + LINESEP), p2, l2) ==
      Ok(content + l1 + (l2 + LINESEP) + (l2 + LINESEP))
    ensures ReadLines(content + l1 + (l2 + LINESEP) + (l2 + LINESEP)) ==
      ReadLines(content) + [l1 + (l2 + LINESEP)] + [l2 + LINESEP]
  {
    var lines := ReadLines(content);
    var x2 := l2 + LINESEP;
    var c3 := content + l1 + x2;
    TerminatedDirective(p2, l2);
    MatchesExtended(p1, l1, x2);
    assert !Matches(p2, l1 + x2);
    NoMatchSnoc(lines, l1 + x2, p2);
    assert c3[|c3| - 1] == '\n';
    AppendedAsWritten(c3, p2, l2);
  }

  lemma FirstUpsertFusedText(lines: seq<string>, l1: string, x1: string, x2: string)
    ensures JoinLines((lines + [x1] + [x2])[|lines| := l1]) == JoinLines(lines) + l1 + x2
  {
    assert (lines + [x1] + [x2])[|lines| := l1] == lines + [l1] + [x2];
    JoinSnoc(lines + [l1], x2);
    JoinSnoc(lines, l1);
  }

  /** The file after one `configure_ssh_authorized_keys_command`, as written, on a file without either directive. */
  lemma FirstConfigureAsWritten(content: string)
    requires content != [] && content[|content| - 1] == '\n'
    requires FirstMatch(ReadLines(content), KEYS_COMMAND).None?
    requires FirstMatch(ReadLines(content), KEYS_COMMAND_USER).None?
    ensures ConfigureText(AsWritten, content) ==
      Ok(content + (KEYS_COMMAND_LINE + LINESEP) + (KEYS_COMMAND_USER_LINE + LINESEP))
  {
    ConfigureDirectives();
    FirstUpsertBothAsWritten(content, KEYS_COMMAND, KEYS_COMMAND_LINE, KEYS_COMMAND_USER, KEYS_COMMAND_USER_LINE);
  }

  /**
   * As written, configuring a second time fuses the two directives: the command line loses
   * its line break, so sshd reads the path of the command followed by
   * "AuthorizedKeysCommandUser root" as one line, and the user directive is appended again.
   */
  lemma SecondConfigureFuses(content: string)
    requires content != [] && content[|content| - 1] == '\n'
    requires FirstMatch(ReadLines(content), KEYS_COMMAND).None?
    requires FirstMatch(ReadLines(content), KEYS_COMMAND_USER).None?
    ensures var once := content + (KEYS_COMMAND_LINE + LINESEP) + (KEYS_COMMAND_USER_LINE + LINESEP);
      var twice := content + KEYS_COMMAND_LINE + (KEYS_COMMAND_USER_LINE + LINESEP) + (KEYS_COMMAND_USER_LINE + LINESEP);
      ConfigureText(AsWritten, content) == Ok(once) && ConfigureText(AsWritten, once) == Ok(twice) &&
      ReadLines(twice) == ReadLines(content) +
        [KEYS_COMMAND_LINE + (KEYS_COMMAND_USER_LINE + LINESEP)] + [KEYS_COMMAND_USER_LINE + LINESEP]
  {
    ConfigureDirectives();
    FirstUpsertBothAsWritten(content, KEYS_COMMAND, KEYS_COMMAND_LINE, KEYS_COMMAND_USER, KEYS_COMMAND_USER_LINE);
    SecondUpsertBothFuses(content, KEYS_COMMAND, KEYS_COMMAND_LINE, KEYS_COMMAND_USER, KEYS_COMMAND_USER_LINE);
  }
}

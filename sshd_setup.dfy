/**
 * The sshd side of ec2_ssh/auth.py as it acts on the host: installing the helper script that
 * sshd runs as its AuthorizedKeysCommand (`create_authorized_keys_command_script`), rewriting
 * /etc/ssh/sshd_config through a temporary file (`append_or_replace_ssh_config`), and both
 * together (`configure_ssh_authorized_keys_command`).
 *
 * Each operation is a function from the host state to the host state (the specification) and
 * a method on `Host` that performs the source's steps one primitive at a time and is proved to
 * reach the state the function gives.
 */
module SshdSetup {
  import opened Wrappers
  import opened PyText
  import opened Posix
  import opened SshdConfig

  // ---------------------------------------------------------------------------------------------
  // The helper script

  /** The template's text between its leading line break and the command path. */
  const SCRIPT_HEAD :=
    "#!/bin/bash\n" +
    "# A script used to look up the public keys of the connecting user using ec2-ssh\n" +
    "\n" +
    "# Run print-keys so that stdout contains the valid public keys and stderr is redirected to syslog\n"
  /** The template's text after the command path, up to its final line break. */
  const SCRIPT_TAIL := " print-keys \"$@\" 2> >(logger)"

  /** `AUTHORIZED_KEYS_COMMAND_SCRIPT_TEMPLATE.format(cmd_path=cmdPath)`. */
  function ScriptTemplate(cmdPath: string): string
  {
    "\n" + (SCRIPT_HEAD + cmdPath + SCRIPT_TAIL) + "\n"
  }

  /**
   * What the script file holds: the formatted template, stripped. Stripping removes exactly
   * the template's first and last line breaks, so the file starts with the "#!" line the
   * kernel needs and ends without a line break.
   */
  function ScriptText(cmdPath: string): (r: string)
    ensures r == SCRIPT_HEAD + cmdPath + SCRIPT_TAIL
    ensures r[0] == '#' && r[1] == '!' && r[|r| - 1] == ')'
  {
    var mid := SCRIPT_HEAD + cmdPath + SCRIPT_TAIL;
    assert mid[0] == '#' && mid[1] == '!' && mid[|mid| - 1] == ')';
    StripMiddle("\n", mid, "\n");
    Strip(ScriptTemplate(cmdPath))
  }

  /** The content of the script file `create_authorized_keys_command_script` writes. */
  const SCRIPT := SCRIPT_HEAD + CMD_PATH + SCRIPT_TAIL

  /** The script file holds the template formatted with the installed command's path, stripped. */
  lemma ScriptIsStrippedTemplate()
    ensures Strip(ScriptTemplate(CMD_PATH)) == SCRIPT
  {
    var r := ScriptText(CMD_PATH);
  }

  /** The paths the core writes are distinct from each other. */
  lemma PathsDistinct()
    ensures SCRIPT_DIR != SCRIPT_PATH && SSHD_CONFIG != SCRIPT_DIR && SSHD_CONFIG != SCRIPT_PATH
  {
    assert |SCRIPT_DIR| < |SCRIPT_PATH|;
    assert SSHD_CONFIG[1] == 'e' && SCRIPT_DIR[1] == 'o' && SCRIPT_PATH[1] == 'o';
  }

  /** A name in the temporary directory is none of the paths the core writes. */
  lemma TempNameDistinct(t: string)
    requires |t| > 5 && t[..5] == "/tmp/"
    ensures t != SCRIPT_DIR && t != SCRIPT_PATH && t != SSHD_CONFIG
  {
    assert t[1] == 't' && SSHD_CONFIG[1] == 'e' && SCRIPT_DIR[1] == 'o' && SCRIPT_PATH[1] == 'o';
  }

  /**
   * The host after `create_authorized_keys_command_script()`: the script directory is created
   * when missing and is then owned by root with mode 0o751 in every case; the script itself is
   * written, owned by root and given mode 0o751 only when it does not exist yet.
   */
  function ScriptInstalled(st: HostState): HostState
  {
    var s1 := if SCRIPT_DIR in st.fs then st else MakeDir(st, SCRIPT_DIR, SCRIPT_MODE);
    var s2 := Chmod(Chown(s1, SCRIPT_DIR, 0, 0), SCRIPT_DIR, SCRIPT_MODE);
    if SCRIPT_PATH in s2.fs then s2
    else Chmod(Chown(WriteFile(s2, SCRIPT_PATH, SCRIPT), SCRIPT_PATH, 0, 0), SCRIPT_PATH, SCRIPT_MODE)
  }

  /**
   * The script directory exists afterwards, owned by root with mode 0o751, a new directory when
   * it was missing; accounts, groups and the command log are untouched.
   */
  lemma ScriptInstalledEffect(st: HostState)
    ensures var r := ScriptInstalled(st);
      r.accounts == st.accounts && r.groups == st.groups && r.log == st.log && r.umask == st.umask &&
      SCRIPT_DIR in r.fs && r.fs[SCRIPT_DIR].mode == SCRIPT_MODE && r.fs[SCRIPT_DIR].uid == 0 && r.fs[SCRIPT_DIR].gid == 0 &&
      (SCRIPT_DIR !in st.fs ==> r.fs[SCRIPT_DIR].kind == Directory)
  {
    PathsDistinct();
  }

  /** The script exists afterwards; an existing one is left exactly as it was, a new one holds SCRIPT, owned by root with mode 0o751. */
  lemma ScriptFileEffect(st: HostState)
    ensures var r := ScriptInstalled(st);
      SCRIPT_PATH in r.fs &&
      (SCRIPT_PATH in st.fs ==> r.fs[SCRIPT_PATH] == st.fs[SCRIPT_PATH]) &&
      (SCRIPT_PATH !in st.fs ==> r.fs[SCRIPT_PATH] == Node(RegularFile, SCRIPT, SCRIPT_MODE, 0, 0))
  {
    PathsDistinct();
  }

  /** Installing the script leaves every other path as it was. */
  lemma ScriptInstalledKeeps(st: HostState, path: string)
    requires path != SCRIPT_DIR && path != SCRIPT_PATH
    ensures var r := ScriptInstalled(st);
      (path in r.fs <==> path in st.fs) && (path in st.fs ==> r.fs[path] == st.fs[path])
  {
  }

  /** Installing the script a second time changes nothing: an existing script is never rewritten. */
  lemma ScriptInstalledIdempotent(st: HostState)
    ensures ScriptInstalled(ScriptInstalled(st)) == ScriptInstalled(st)
  {
    var r := ScriptInstalled(st);
    ScriptInstalledEffect(st);
    ScriptFileEffect(st);
    var d := r.fs[SCRIPT_DIR];
    assert d.(uid := 0, gid := 0) == d && d.(mode := SCRIPT_MODE) == d;
    assert r.fs[SCRIPT_DIR := d] == r.fs;
  }

  /** `create_authorized_keys_command_script()`. */
  method CreateAuthorizedKeysCommandScript(host: Host)
    modifies host
    ensures host.State() == ScriptInstalled(old(host.State()))
  {
    var dirExists := host.PathExists(SCRIPT_DIR);
    if !dirExists {
      host.MakeDirs(SCRIPT_DIR, SCRIPT_MODE);
    }
    host.ChangeOwner(SCRIPT_DIR, 0, 0);
    host.ChangeMode(SCRIPT_DIR, SCRIPT_MODE);
    var scriptExists := host.PathExists(SCRIPT_PATH);
    if scriptExists {
      return;
    }
    PathsDistinct();
    var script := Strip(ScriptTemplate(CMD_PATH));
    ScriptIsStrippedTemplate();
    host.Write(SCRIPT_PATH, script);
    host.ChangeOwner(SCRIPT_PATH, 0, 0);
    host.ChangeMode(SCRIPT_PATH, SCRIPT_MODE);
  }

  // ---------------------------------------------------------------------------------------------
  // Rewriting sshd_config

  /** What `tempfile.mktemp()` returns: a name in the temporary directory that nothing uses yet. */
  predicate TempName(st: HostState, t: string)
  {
    |t| > 5 && t[..5] == "/tmp/" && t !in st.fs
  }

  /** Why `append_or_replace_ssh_config` raised: sshd_config could not be opened, or the upsert raised. */
  datatype ConfigError = Unreadable | Raised(error: UpsertError)

  /** The host after an operation, with the exception it raised, if any. */
  datatype Outcome = Outcome(state: HostState, error: Option<ConfigError>)

  /** sshd_config exists and `open(SSHD_CONFIG, 'rb')` succeeds. */
  predicate Readable(st: HostState)
  {
    SSHD_CONFIG in st.fs && st.fs[SSHD_CONFIG].kind == RegularFile
  }

  /** The host with only the content of sshd_config replaced: its kind, mode and owner stay. */
  function Rewritten(st: HostState, content: string): HostState
    requires SSHD_CONFIG in st.fs
  {
    st.(fs := st.fs[SSHD_CONFIG := st.fs[SSHD_CONFIG].(content := content)])
  }

  /**
   * The host after `append_or_replace_ssh_config(p, line)` with `tmp` as the temporary name:
   * the new lines are written to `tmp`, copied over sshd_config, and `tmp` is removed.
   * Nothing is written when the file cannot be read or the upsert raises.
   */
  function UpsertConfig(st: HostState, rev: Revision, p: DirectivePattern, line: string, tmp: string): Outcome
    requires TempName(st, tmp)
  {
    if !Readable(st) then Outcome(st, Some(Unreadable))
    else match UpsertBy(rev, ReadLines(st.fs[SSHD_CONFIG].content), p, line)
      case Err(e) => Outcome(st, Some(Raised(e)))
      case Ok(lines) =>
        var s1 := WriteFile(st, tmp, JoinLines(lines));
        var s2 := CopyFile(s1, tmp, SSHD_CONFIG);
        Outcome(RemoveFile(s2, tmp), None)
  }

  /**
   * The temporary file leaves no trace: a successful upsert changes only the content of
   * sshd_config, to what `UpsertText` gives, keeping its mode and owner; a failed one changes
   * nothing, and fails exactly when the file is unreadable or the upsert raises.
   */
  lemma UpsertConfigEffect(st: HostState, rev: Revision, p: DirectivePattern, line: string, tmp: string)
    requires TempName(st, tmp)
    ensures var o := UpsertConfig(st, rev, p, line, tmp);
      (o.error == Some(Unreadable) <==> !Readable(st)) &&
      (o.error.Some? ==> o.state == st) &&
      (Readable(st) ==>
        var text := UpsertText(rev, st.fs[SSHD_CONFIG].content, p, line);
        (text.Err? ==> o.error == Some(Raised(text.error))) &&
        (text.Ok? ==> o == Outcome(Rewritten(st, text.value), None)))
  {
    if Readable(st) {
      var text := UpsertText(rev, st.fs[SSHD_CONFIG].content, p, line);
      if text.Ok? {
        var node := st.fs[SSHD_CONFIG];
        var o := UpsertConfig(st, rev, p, line, tmp);
        assert tmp != SSHD_CONFIG;
        assert o.state.fs == Rewritten(st, text.value).fs;
      }
    }
  }

  /** The upsert leaves every path other than sshd_config and the temporary file as it was, and the temporary file absent. */
  lemma UpsertConfigKeeps(st: HostState, rev: Revision, p: DirectivePattern, line: string, tmp: string, path: string)
    requires TempName(st, tmp) && path != SSHD_CONFIG
    ensures var r := UpsertConfig(st, rev, p, line, tmp).state;
      (path in r.fs <==> path in st.fs) && (path in st.fs ==> r.fs[path] == st.fs[path])
  {
  }

  /** `append_or_replace_ssh_config(p, line)`, reading the file, running the upsert loop, and writing through `tmp`. */
  method AppendOrReplaceSshConfig(host: Host, rev: Revision, p: DirectivePattern, line: string, tmp: string)
    returns (error: Option<ConfigError>)
    requires TempName(host.State(), tmp)
    modifies host
    ensures var o := UpsertConfig(old(host.State()), rev, p, line, tmp);
      host.State() == o.state && error == o.error
  {
    var content := host.ReadFile(SSHD_CONFIG);
    if content.None? {
      return Some(Unreadable);
    }
    var lines := ReadLines(content.value);
    var result := AppendOrReplaceLines(lines, p, line, rev);
    if result.Err? {
      return Some(Raised(result.error));
    }
    host.Write(tmp, JoinLines(result.value));
    host.Copy(tmp, SSHD_CONFIG);
    host.Remove(tmp);
    error := None;
  }

  // ---------------------------------------------------------------------------------------------
  // configure_ssh_authorized_keys_command

  /**
   * The host after `configure_ssh_authorized_keys_command()` with `tmp1` and `tmp2` as the two
   * temporary names: the script is installed first, then the command directive is upserted,
   * then the user directive. An exception stops the sequence where it is raised.
   */
  function Configured(st: HostState, rev: Revision, tmp1: string, tmp2: string): Outcome
    requires TempName(st, tmp1) && TempName(st, tmp2)
  {
    var s1 := ScriptInstalled(st);
    ScriptKeepsTempNames(st, tmp1, tmp2);
    var o1 := UpsertConfig(s1, rev, KEYS_COMMAND, KEYS_COMMAND_LINE, tmp1);
    if o1.error.Some? then o1
    else
      UpsertKeepsTempName(s1, rev, KEYS_COMMAND, KEYS_COMMAND_LINE, tmp1, tmp2);
      UpsertConfig(o1.state, rev, KEYS_COMMAND_USER, KEYS_COMMAND_USER_LINE, tmp2)
  }

  lemma ScriptKeepsTempNames(st: HostState, tmp1: string, tmp2: string)
    requires TempName(st, tmp1) && TempName(st, tmp2)
    ensures TempName(ScriptInstalled(st), tmp1) && TempName(ScriptInstalled(st), tmp2)
  {
    TempNameDistinct(tmp1);
    TempNameDistinct(tmp2);
    ScriptInstalledKeeps(st, tmp1);
    ScriptInstalledKeeps(st, tmp2);
  }

  lemma UpsertKeepsTempName(st: HostState, rev: Revision, p: DirectivePattern, line: string, tmp: string, t: string)
    requires TempName(st, tmp) && TempName(st, t)
    ensures TempName(UpsertConfig(st, rev, p, line, tmp).state, t)
  {
    TempNameDistinct(t);
    if t != tmp {
      UpsertConfigKeeps(st, rev, p, line, tmp, t);
    }
  }

  /**
   * What configuring does to the host: the script is installed, sshd_config gets the content
   * `ConfigureText` gives (or the call fails and sshd_config is as it was), and nothing else
   * changes.
   */
  lemma ConfiguredEffect(st: HostState, rev: Revision, tmp1: string, tmp2: string)
    requires TempName(st, tmp1) && TempName(st, tmp2)
    ensures var o := Configured(st, rev, tmp1, tmp2);
      var s1 := ScriptInstalled(st);
      (o.error == Some(Unreadable) <==> !Readable(st)) &&
      (!Readable(st) ==> o.state == s1) &&
      (Readable(st) ==>
        var content := st.fs[SSHD_CONFIG].content;
        var first := UpsertText(rev, content, KEYS_COMMAND, KEYS_COMMAND_LINE);
        var text := ConfigureText(rev, content);
        (text.Ok? ==> o == Outcome(Rewritten(s1, text.value), None)) &&
        (text.Err? ==>
          o.error == Some(Raised(text.error)) &&
          o.state == (if first.Ok? then Rewritten(s1, first.value) else s1)))
  {
    var s1 := ScriptInstalled(st);
    ScriptKeepsTempNames(st, tmp1, tmp2);
    PathsDistinct();
    ScriptInstalledKeeps(st, SSHD_CONFIG);
    UpsertConfigEffect(s1, rev, KEYS_COMMAND, KEYS_COMMAND_LINE, tmp1);
    var o1 := UpsertConfig(s1, rev, KEYS_COMMAND, KEYS_COMMAND_LINE, tmp1);
    if Readable(st) && o1.error.None? {
      UpsertKeepsTempName(s1, rev, KEYS_COMMAND, KEYS_COMMAND_LINE, tmp1, tmp2);
      UpsertConfigEffect(o1.state, rev, KEYS_COMMAND_USER, KEYS_COMMAND_USER_LINE, tmp2);
      var node := s1.fs[SSHD_CONFIG];
      var c1 := UpsertText(rev, node.content, KEYS_COMMAND, KEYS_COMMAND_LINE).value;
      assert o1.state == Rewritten(s1, c1);
      var text := UpsertText(rev, c1, KEYS_COMMAND_USER, KEYS_COMMAND_USER_LINE);
      if text.Ok? {
        RewrittenTwice(s1, c1, text.value);
      }
    }
  }

  /** Rewriting sshd_config twice is rewriting it once with the second content. */
  lemma RewrittenTwice(s: HostState, c1: string, c2: string)
    requires SSHD_CONFIG in s.fs
    ensures Rewritten(Rewritten(s, c1), c2) == Rewritten(s, c2)
  {
    assert Rewritten(Rewritten(s, c1), c2).fs == Rewritten(s, c2).fs;
  }

  /** `configure_ssh_authorized_keys_command()`. */
  method ConfigureSshAuthorizedKeysCommand(host: Host, rev: Revision, tmp1: string, tmp2: string)
    returns (error: Option<ConfigError>)
    requires TempName(host.State(), tmp1) && TempName(host.State(), tmp2)
    modifies host
    ensures var o := Configured(old(host.State()), rev, tmp1, tmp2);
      host.State() == o.state && error == o.error
  {
    ghost var st := host.State();
    CreateAuthorizedKeysCommandScript(host);
    ScriptKeepsTempNames(st, tmp1, tmp2);
    error := AppendOrReplaceSshConfig(host, rev, KEYS_COMMAND, KEYS_COMMAND_LINE, tmp1);
    if error.Some? {
      return;
    }
    UpsertKeepsTempName(ScriptInstalled(st), rev, KEYS_COMMAND, KEYS_COMMAND_LINE, tmp1, tmp2);
    error := AppendOrReplaceSshConfig(host, rev, KEYS_COMMAND_USER, KEYS_COMMAND_USER_LINE, tmp2);
  }

  /**
   * With the corrected upsert, configuring a host that has already been configured changes
   * nothing at all, whichever temporary names are drawn.
   */
  lemma FixedConfiguredIdempotent(st: HostState, tmp1: string, tmp2: string, tmp3: string, tmp4: string)
    requires TempName(st, tmp1) && TempName(st, tmp2)
    requires Configured(st, Corrected, tmp1, tmp2).error.None?
    requires var s := Configured(st, Corrected, tmp1, tmp2).state;
      TempName(s, tmp3) && TempName(s, tmp4)
    ensures var s := Configured(st, Corrected, tmp1, tmp2).state;
      Configured(s, Corrected, tmp3, tmp4) == Outcome(s, None)
  {
    var s := Configured(st, Corrected, tmp1, tmp2).state;
    ConfiguredEffect(st, Corrected, tmp1, tmp2);
    var s1 := ScriptInstalled(st);
    PathsDistinct();
    ScriptInstalledKeeps(st, SSHD_CONFIG);
    var once := ConfigureText(Corrected, s1.fs[SSHD_CONFIG].content).value;
    assert s == Rewritten(s1, once);
    ScriptInstalledIdempotent(st);
    ScriptKept(s1, once);
    FixedConfigureIdempotent(s1.fs[SSHD_CONFIG].content);
    ConfiguredEffect(s, Corrected, tmp3, tmp4);
    RewrittenTwice(s1, once, once);
  }

  /** Rewriting sshd_config keeps an installed script installed. */
  lemma ScriptKept(s: HostState, content: string)
    requires ScriptInstalled(s) == s && SSHD_CONFIG in s.fs
    ensures ScriptInstalled(Rewritten(s, content)) == Rewritten(s, content)
  {
    PathsDistinct();
    ScriptInstalledEffect(s);
    ScriptFileEffect(s);
    var t := Rewritten(s, content);
    var d := t.fs[SCRIPT_DIR];
    assert d == s.fs[SCRIPT_DIR];
    assert d.(uid := 0, gid := 0) == d && d.(mode := SCRIPT_MODE) == d;
    assert t.fs[SCRIPT_DIR := d] == t.fs;
  }

  /**
   * As written, configuring a host twice whose sshd_config ends with a line break and holds
   * neither directive leaves sshd_config with the command directive fused onto the user
   * directive, and the user directive once more on a line of its own.
   */
  lemma ConfiguredTwiceFuses(st: HostState, tmp1: string, tmp2: string, tmp3: string, tmp4: string)
    requires TempName(st, tmp1) && TempName(st, tmp2)
    requires Readable(st)
    requires var content := st.fs[SSHD_CONFIG].content;
      content != [] && content[|content| - 1] == '\n' &&
      FirstMatch(ReadLines(content), KEYS_COMMAND).None? && FirstMatch(ReadLines(content), KEYS_COMMAND_USER).None?
    requires var s := Configured(st, AsWritten, tmp1, tmp2).state;
      TempName(s, tmp3) && TempName(s, tmp4)
    ensures var s := Configured(st, AsWritten, tmp1, tmp2).state;
      var o := Configured(s, AsWritten, tmp3, tmp4);
      var content := st.fs[SSHD_CONFIG].content;
      o.error.None? && SSHD_CONFIG in o.state.fs &&
      ReadLines(o.state.fs[SSHD_CONFIG].content) == ReadLines(content) +
        [KEYS_COMMAND_LINE + (KEYS_COMMAND_USER_LINE + LINESEP)] + [KEYS_COMMAND_USER_LINE + LINESEP]
  {
    var content := st.fs[SSHD_CONFIG].content;
    SecondConfigureFuses(content);
    var once := content + (KEYS_COMMAND_LINE + LINESEP) + (KEYS_COMMAND_USER_LINE + LINESEP);
    ConfiguredRewrites(st, AsWritten, tmp1, tmp2, once);
    var s := Configured(st, AsWritten, tmp1, tmp2).state;
    ConfiguredRewrites(s, AsWritten, tmp3, tmp4, ConfigureText(AsWritten, once).value);
  }

  /** When both upserts succeed on the text, `configure` leaves sshd_config readable and holding the new text. */
  lemma ConfiguredRewrites(st: HostState, rev: Revision, tmp1: string, tmp2: string, c: string)
    requires TempName(st, tmp1) && TempName(st, tmp2) && Readable(st)
    requires ConfigureText(rev, st.fs[SSHD_CONFIG].content) == Ok(c)
    ensures var o := Configured(st, rev, tmp1, tmp2);
      o.error.None? && Readable(o.state) && o.state.fs[SSHD_CONFIG].content == c
  {
    ConfiguredEffect(st, rev, tmp1, tmp2);
    PathsDistinct();
    ScriptInstalledKeeps(st, SSHD_CONFIG);
  }
}

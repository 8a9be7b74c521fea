/**
 * `OsUser` of ec2_ssh/auth.py: one local account named by the normalized directory user name,
 * its creation and deletion through useradd/userdel, its sudo grant as a file under
 * /etc/sudoers.d, and its public keys fetched from the identity directory and cached.
 */
module OsUsers {
  import opened Wrappers
  import opened Posix
  import opened Iam
  import opened Utils

  const DEFAULT_SHELL := "/bin/bash"
  const SUDOERS_BASE_PATH := "/etc/sudoers.d"
  /** `stat.S_IRUSR | stat.S_IRGRP | 0`, that is 0o440: read for owner and group, nothing else. */
  const SUDOERS_MODE: Mode := S_IRUSR + S_IRGRP

  // ---------------------------------------------------------------------------------------------
  // Username normalization

  /** What `.*` matches: everything up to, not including, the next '\n'. */
  function SkipLine(s: string): (r: string)
    ensures |r| <= |s| && r == s[|s| - |r|..]
    ensures r == [] || r[0] == '\n'
    ensures forall k :: 0 <= k < |s| - |r| ==> s[k] != '\n'
  {
    if s == [] || s[0] == '\n' then s else SkipLine(s[1..])
  }

  /** `re.sub(r'@.*', '', s, count=remaining)` for a positive count: at most `remaining` matches are deleted, left to right. */
  function DeleteAtToEndOfLine(s: string, remaining: nat): string
    decreases |s|
  {
    if s == [] then []
    else if s[0] == '@' && remaining > 0 then DeleteAtToEndOfLine(SkipLine(s[1..]), remaining - 1)
    else [s[0]] + DeleteAtToEndOfLine(s[1..], remaining)
  }

  /**
   * `re.sub(r'@.*', '', username, re.I)`: the fourth positional argument of `re.sub` is the
   * replacement count, so `re.I` (whose value is 2) allows at most two replacements.
   */
  function Normalize(username: string): string
  {
    DeleteAtToEndOfLine(username, 2)
  }

  /** The reference meaning: the text before the first '@'. */
  function BeforeAt(s: string): (r: string)
    ensures '@' !in r
  {
    if s == [] || s[0] == '@' then [] else [s[0]] + BeforeAt(s[1..])
  }

  /** A name without '@' is its own normal form. */
  lemma {:induction false} NormalizeWithoutAt(s: string, remaining: nat)
    requires '@' !in s
    ensures DeleteAtToEndOfLine(s, remaining) == s
    decreases |s|
  {
    if s != [] {
      assert s[0] in s;
      assert '@' !in s[1..] by {
        forall k | 0 <= k < |s[1..]| ensures s[1..][k] != '@' { assert s[1..][k] == s[k + 1]; }
      }
      NormalizeWithoutAt(s[1..], remaining);
      assert [s[0]] + s[1..] == s;
    }
  }

  /** On a one-line name, normalization keeps exactly the text before the first '@'. */
  lemma {:induction false} NormalizeOneLine(s: string, remaining: nat)
    requires '\n' !in s && remaining > 0
    ensures DeleteAtToEndOfLine(s, remaining) == BeforeAt(s)
    decreases |s|
  {
    if s != [] {
      assert '\n' !in s[1..] by {
        forall k | 0 <= k < |s[1..]| ensures s[1..][k] != '\n' { assert s[1..][k] == s[k + 1]; }
      }
      if s[0] == '@' {
        var t := SkipLine(s[1..]);
        assert t == [];
      } else {
        NormalizeOneLine(s[1..], remaining);
      }
    }
  }

  /** For one-line names: the normal form has no '@', and normalizing twice changes nothing. */
  lemma NormalizeIdempotent(username: string)
    requires '\n' !in username
    ensures Normalize(username) == BeforeAt(username)
    ensures '@' !in Normalize(username)
    ensures Normalize(Normalize(username)) == Normalize(username)
  {
    NormalizeOneLine(username, 2);
    NormalizeWithoutAt(BeforeAt(username), 2);
  }

  /** The text before the first '@' of `local + "@" + domain` is `local` when `local` has no '@'. */
  lemma {:induction false} BeforeAtSplit(local: string, rest: string)
    requires '@' !in local
    ensures BeforeAt(local + "@" + rest) == local
  {
    if local == [] {
      assert (local + "@" + rest)[0] == '@';
    } else {
      assert (local + "@" + rest)[1..] == local[1..] + "@" + rest;
      assert local[0] in local;
      assert '@' !in local[1..] by {
        forall k | 0 <= k < |local[1..]| ensures local[1..][k] != '@' { assert local[1..][k] == local[k + 1]; }
      }
      BeforeAtSplit(local[1..], rest);
      assert [local[0]] + local[1..] == local;
    }
  }

  /**
   * An e-mail-like directory name (`alice@example.com`) and its local part (`alice`) name the
   * same account and the same sudoers file.
   */
  lemma EmailAndLocalPartAgree(local: string, domain: string)
    requires '@' !in local && '\n' !in local && '\n' !in domain
    ensures Normalize(local + "@" + domain) == Normalize(local) == local
    ensures SudoersPath(Normalize(local + "@" + domain)) == SudoersPath(Normalize(local))
  {
    var email := local + "@" + domain;
    assert '\n' !in email by {
      forall k | 0 <= k < |email| ensures email[k] != '\n' {
        if k < |local| { assert email[k] == local[k]; }
        else if k > |local| { assert email[k] == domain[k - |local| - 1]; }
      }
    }
    NormalizeOneLine(email, 2);
    BeforeAtSplit(local, domain);
    NormalizeWithoutAt(local, 2);
  }

  // ---------------------------------------------------------------------------------------------
  // Account and sudoers transitions

  /** `'%s/%s' % (SUDOERS_BASE_PATH, username)`. */
  function SudoersPath(name: string): string
  {
    SUDOERS_BASE_PATH + "/" + name
  }

  /** The single grant line of a sudoers fragment. */
  function SudoersLine(name: string): string
  {
    name + " ALL=(ALL) NOPASSWD:ALL"
  }

  function UserAddArgs(name: string): seq<string>
  {
    [USERADD, "--shell", DEFAULT_SHELL, "--create-home", name]
  }

  /** `OsUser.create`: one useradd with the default shell and a new home directory; its failure is not raised. */
  function CreateAccount(st: HostState, name: string, mode: ArgvMode): HostState
  {
    Run(st, UserAddArgs(name), mode).state
  }

  /**
   * `OsUser.grant_sudo_access`: an existing fragment is left alone; otherwise one is written
   * with the grant line and then set to 0o440.
   */
  function GrantSudo(st: HostState, name: string): (r: HostState)
    ensures SudoersPath(name) in r.fs
    ensures SudoersPath(name) in st.fs ==> r == st
    ensures SudoersPath(name) !in st.fs ==>
      r == st.(fs := st.fs[SudoersPath(name) := Node(RegularFile, SudoersLine(name), SUDOERS_MODE, 0, 0)])
  {
    var path := SudoersPath(name);
    if path in st.fs then st else Chmod(WriteFile(st, path, SudoersLine(name)), path, SUDOERS_MODE)
  }

  /** `OsUser.revoke_sudo_access`: the fragment is removed when it exists; nothing else changes. */
  function RevokeSudo(st: HostState, name: string): (r: HostState)
    ensures SudoersPath(name) !in r.fs
    ensures r == st.(fs := st.fs - {SudoersPath(name)})
  {
    var path := SudoersPath(name);
    if path !in st.fs then st else RemoveFile(st, path)
  }

  /** `OsUser.delete`: userdel, then revoke whatever its outcome. */
  function DeleteAccount(st: HostState, name: string, mode: ArgvMode): HostState
  {
    RevokeSudo(Run(st, [USERDEL, name], mode).state, name)
  }

  /** Granting twice is granting once. */
  lemma GrantIdempotent(st: HostState, name: string)
    ensures GrantSudo(GrantSudo(st, name), name) == GrantSudo(st, name)
  {
  }

  /** Grant then revoke leaves no fragment and the rest of the host as it was; revoking again changes nothing. */
  lemma GrantThenRevoke(st: HostState, name: string)
    ensures RevokeSudo(GrantSudo(st, name), name) == st.(fs := st.fs - {SudoersPath(name)})
    ensures RevokeSudo(RevokeSudo(GrantSudo(st, name), name), name) == RevokeSudo(GrantSudo(st, name), name)
  {
  }

  /** The paths of useradd, userdel and usermod are left as they are by `shlex_quote`. */
  lemma ProgramsAreSafe()
    ensures IsSafe(USERADD) && IsSafe(USERDEL) && IsSafe(USERMOD)
  {
  }

  /** So are the fixed flags of useradd and usermod, and the default shell. */
  lemma FlagsAreSafe()
    ensures IsSafe("--shell") && IsSafe(DEFAULT_SHELL) && IsSafe("--create-home")
    ensures IsSafe("--append") && IsSafe("--groups") && IsSafe("-G")
  {
  }

  /**
   * For a name that quoting leaves alone, creating a missing account adds it, and deleting
   * an existing account removes it, its group memberships and its sudoers fragment.
   */
  lemma CreateDeleteAccount(st: HostState, name: string, mode: ArgvMode)
    requires mode == Verbatim || (name != [] && IsSafe(name))
    ensures name !in st.accounts ==> CreateAccount(st, name, mode).accounts == st.accounts + {name}
    ensures name in st.accounts ==>
      var r := DeleteAccount(st, name, mode);
      r.accounts == st.accounts - {name} && r.groups == RemoveFromAll(st.groups, name) && SudoersPath(name) !in r.fs
  {
    ProgramsAreSafe();
    FlagsAreSafe();
    assert Argv(mode, UserAddArgs(name)) == UserAddArgs(name);
    assert Argv(mode, [USERDEL, name]) == [USERDEL, name];
  }

  // ---------------------------------------------------------------------------------------------
  // The object

  class OsUser {
    /** `self._username`: the normalized name every OS-level operation uses. */
    const username: string
    /** `self._ssh_public_keys`: None until fetched. */
    var sshPublicKeys: Option<seq<string>>

    constructor (rawUsername: string)
      ensures username == Normalize(rawUsername) && sshPublicKeys == None
    {
      username := Normalize(rawUsername);
      sshPublicKeys := None;
    }

    method Create(host: Host)
      modifies host
      ensures host.State() == CreateAccount(old(host.State()), username, host.argvMode)
    {
      var _ := host.RunCommand(UserAddArgs(username));
    }

    /** `OsUser.exists`. */
    method Exists(host: Host) returns (b: bool)
      ensures b <==> username in host.accounts
    {
      b := host.AccountExists(username);
    }

    method Delete(host: Host)
      modifies host
      ensures host.State() == DeleteAccount(old(host.State()), username, host.argvMode)
    {
      var _ := host.RunCommand([USERDEL, username]);
      RevokeSudoAccess(host);
    }

    method GrantSudoAccess(host: Host)
      modifies host
      ensures host.State() == GrantSudo(old(host.State()), username)
    {
      var path := SudoersPath(username);
      var present := host.PathExists(path);
      if present {
        return;
      }
      host.Write(path, SudoersLine(username));
      host.ChangeMode(path, SUDOERS_MODE);
    }

    method RevokeSudoAccess(host: Host)
      modifies host
      ensures host.State() == RevokeSudo(old(host.State()), username)
    {
      var path := SudoersPath(username);
      var present := host.PathExists(path);
      if !present {
        return;
      }
      host.Remove(path);
    }

    /** `_get_ssh_public_key_ids`: walk every page and keep the ids of active records. */
    method GetSshPublicKeyIds(dir: Directory) returns (r: Result<seq<string>, DirectoryError>)
      ensures r == ListActiveKeyIds(dir, username)
    {
      if username !in dir.keyPages {
        return Err(NoSuchEntity(username));
      }
      var pages := dir.keyPages[username];
      var keyIds: seq<string> := [];
      var i := 0;
      while i < |pages|
        invariant 0 <= i <= |pages|
        invariant keyIds == ActiveIds(pages[..i])
      {
        var page := pages[i];
        var j := 0;
        while j < |page|
          invariant 0 <= j <= |page|
          invariant keyIds == ActiveIds(pages[..i]) + ActiveInPage(page[..j])
        {
          assert page[..j + 1][..j] == page[..j];
          if IsActive(page[j]) {
            keyIds := keyIds + [page[j].keyId];
          }
          j := j + 1;
        }
        assert page[..j] == page;
        assert pages[..i + 1][..i] == pages[..i];
        i := i + 1;
      }
      assert pages[..i] == pages;
      return Ok(keyIds);
    }

    /** `_get_ssh_public_keys`: one body per active id, in the same order. */
    method GetSshPublicKeys(dir: Directory) returns (r: Result<seq<string>, DirectoryError>)
      ensures r == PublicKeys(dir, username)
    {
      var ids := GetSshPublicKeyIds(dir);
      if ids.Err? {
        return Err(ids.error);
      }
      var keyIds := ids.value;
      var publicKeys: seq<string> := [];
      var i := 0;
      while i < |keyIds|
        invariant 0 <= i <= |keyIds|
        invariant KeyBodies(dir, username, keyIds[..i]) == Ok(publicKeys)
      {
        assert keyIds[..i + 1][..i] == keyIds[..i];
        if (username, keyIds[i]) !in dir.keyBodies {
          KeyBodiesStopsAtFirstMissing(dir, username, keyIds, i + 1);
          return Err(NoSuchEntity(keyIds[i]));
        }
        publicKeys := publicKeys + [dir.keyBodies[(username, keyIds[i])]];
        i := i + 1;
      }
      assert keyIds[..i] == keyIds;
      return Ok(publicKeys);
    }

    /**
     * `OsUser.ssh_public_keys`: the cached keys when the cache holds a non-empty list; otherwise
     * (never fetched, or fetched and empty) a fresh fetch, cached when it succeeds.
     */
    method SshPublicKeys(dir: Directory) returns (r: Result<seq<string>, DirectoryError>)
      modifies this
      ensures old(sshPublicKeys) == None || old(sshPublicKeys) == Some([]) ==>
        r == PublicKeys(dir, username) && sshPublicKeys == (if r.Ok? then Some(r.value) else old(sshPublicKeys))
      ensures old(sshPublicKeys).Some? && old(sshPublicKeys).value != [] ==>
        r == Ok(old(sshPublicKeys).value) && sshPublicKeys == old(sshPublicKeys)
    {
      if sshPublicKeys == None || sshPublicKeys == Some([]) {
        var fetched := GetSshPublicKeys(dir);
        if fetched.Err? {
          return fetched;
        }
        sshPublicKeys := Some(fetched.value);
      }
      return Ok(sshPublicKeys.value);
    }
  }

  /**
   * Reading the keys twice from one object, with the directory changing in between: a non-empty
   * first answer is served again from the cache, an empty one is fetched afresh.
   */
  method ReadKeysTwice(rawUsername: string, before: Directory, after: Directory)
    returns (first: Result<seq<string>, DirectoryError>, second: Result<seq<string>, DirectoryError>)
    ensures first == PublicKeys(before, Normalize(rawUsername))
    ensures first.Ok? && first.value != [] ==> second == first
    ensures first == Ok([]) ==> second == PublicKeys(after, Normalize(rawUsername))
  {
    var user := new OsUser(rawUsername);
    first := user.SshPublicKeys(before);
    second := user.SshPublicKeys(after);
  }
}

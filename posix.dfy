/**
 * The host the core acts on, as an abstract state: the account database that `pwd.getpwnam`
 * consults, the group database in the order `grp.getgrall()` lists it, the files and directories
 * the core touches, the argument vectors of the commands it has run (the log), and the umask.
 *
 * The core changes accounts and groups only by running the shadow-utils programs useradd,
 * userdel, usermod, groupadd and groupdel. `Exec` gives what each of these does with the exact
 * argument vector it receives; it is the model's reading of those programs, not code of the core.
 * Files change only through the Python primitives open/write, chmod, chown, makedirs, copyfile
 * and remove, given here as small transitions.
 */
module Posix {
  import opened Wrappers
  import opened Utils

  /** Permission bits of a file mode. */
  type Mode = m: nat | m < 0x1000

  const S_IRUSR: Mode := 0x100  // 0o400
  const S_IRGRP: Mode := 0x20   // 0o040
  /** The mode `open(path, 'w')` asks for when it creates a file, before the umask applies. */
  const OPEN_CREATE_MODE: Mode := 0x1B6  // 0o666

  /** `mode & ~umask`. */
  function Masked(mode: Mode, umask: Mode): Mode
  {
    ((mode as bv12) & !(umask as bv12)) as nat
  }

  datatype Kind = RegularFile | Directory

  datatype Node = Node(kind: Kind, content: string, mode: Mode, uid: nat, gid: nat)

  /** One line of /etc/group: `gr_name` and `gr_mem`. */
  datatype GroupEntry = GroupEntry(name: string, members: seq<string>)

  datatype HostState = HostState(
    accounts: set<string>,
    groups: seq<GroupEntry>,
    fs: map<string, Node>,
    log: seq<seq<string>>,
    umask: Mode)

  /**
   * How `run_command` turns its arguments into the vector the program receives. The source
   * quotes every argument (QuoteEach) and then starts the program without a shell, so the
   * quotes reach the program; Verbatim hands the arguments over unchanged.
   */
  datatype ArgvMode = QuoteEach | Verbatim

  function Argv(mode: ArgvMode, args: seq<string>): (argv: seq<string>)
    ensures |argv| == |args|
    ensures mode == Verbatim ==> argv == args
    ensures mode == QuoteEach ==> forall i :: 0 <= i < |args| ==> argv[i] == ShlexQuote(args[i])
  {
    match mode
    case QuoteEach => QuoteArgs(args)
    case Verbatim => args
  }

  // ---------------------------------------------------------------------------------------------
  // The group database

  /** Index of the first entry named `name`, as a scan of `grp.getgrall()` finds it. */
  function FirstIndex(groups: seq<GroupEntry>, name: string): (r: Option<nat>)
    ensures r.Some? ==> r.value < |groups| && groups[r.value].name == name
    ensures r.Some? ==> forall j :: 0 <= j < r.value ==> groups[j].name != name
    ensures r.None? <==> forall j :: 0 <= j < |groups| ==> groups[j].name != name
  {
    if groups == [] then None
    else if groups[0].name == name then Some(0)
    else match FirstIndex(groups[1..], name)
      case None => None
      case Some(i) => Some(i + 1)
  }

  /** `grp.getgrnam(name)` succeeds. */
  predicate GroupExists(groups: seq<GroupEntry>, name: string)
  {
    FirstIndex(groups, name).Some?
  }

  /** The members of the first entry named `name`, or none when there is no such entry. */
  function MembersOf(groups: seq<GroupEntry>, name: string): seq<string>
  {
    match FirstIndex(groups, name)
    case Some(i) => groups[i].members
    case None => []
  }

  /** Two group databases with the same names in the same places have their first `name` entry at the same index. */
  lemma SameNamesSameFirst(gs: seq<GroupEntry>, hs: seq<GroupEntry>, name: string)
    requires |gs| == |hs| && forall i :: 0 <= i < |gs| ==> gs[i].name == hs[i].name
    ensures FirstIndex(gs, name) == FirstIndex(hs, name)
  {
    var a, b := FirstIndex(gs, name), FirstIndex(hs, name);
    if a.Some? && b.Some? {
      assert gs[b.value].name == name && hs[a.value].name == name;
    }
  }

  function Without(s: seq<string>, u: string): (r: seq<string>)
    ensures forall x :: x in r <==> x in s && x != u
  {
    if s == [] then []
    else (if s[0] == u then [] else [s[0]]) + Without(s[1..], u)
  }

  /** Every entry loses `u` from its member list. */
  function RemoveFromAll(groups: seq<GroupEntry>, u: string): (r: seq<GroupEntry>)
    ensures |r| == |groups|
    ensures forall i :: 0 <= i < |r| ==> r[i] == groups[i].(members := Without(groups[i].members, u))
  {
    seq(|groups|, i requires 0 <= i < |groups| => groups[i].(members := Without(groups[i].members, u)))
  }

  /** Every entry named `name` gains `u` at the end of its member list, unless `u` is already there. */
  function AddToGroup(groups: seq<GroupEntry>, name: string, u: string): (r: seq<GroupEntry>)
    ensures |r| == |groups|
    ensures forall i :: 0 <= i < |r| ==> r[i] == AddMember(groups[i], name, u)
  {
    seq(|groups|, i requires 0 <= i < |groups| => AddMember(groups[i], name, u))
  }

  function AddMember(e: GroupEntry, name: string, u: string): GroupEntry
  {
    if e.name == name && u !in e.members then e.(members := e.members + [u]) else e
  }

  /** Removing `u` from every entry removes it from the members of `name` and keeps everyone else. */
  lemma MembersAfterRemoveFromAll(groups: seq<GroupEntry>, name: string, u: string)
    ensures forall x :: x in MembersOf(RemoveFromAll(groups, u), name) <==> x in MembersOf(groups, name) && x != u
  {
    SameNamesSameFirst(groups, RemoveFromAll(groups, u), name);
  }

  /** Adding `u` to `name` adds it to the members of `name` and removes no one from any group. */
  lemma MembersAfterAddToGroup(groups: seq<GroupEntry>, name: string, u: string, other: string)
    ensures GroupExists(groups, name) ==>
      forall x :: x in MembersOf(AddToGroup(groups, name, u), name) <==> x in MembersOf(groups, name) || x == u
    ensures forall x :: x in MembersOf(groups, other) ==> x in MembersOf(AddToGroup(groups, name, u), other)
  {
    SameNamesSameFirst(groups, AddToGroup(groups, name, u), name);
    SameNamesSameFirst(groups, AddToGroup(groups, name, u), other);
  }

  // ---------------------------------------------------------------------------------------------
  // The account and group programs

  const USERADD := "/usr/sbin/useradd"
  const USERDEL := "/usr/sbin/userdel"
  const USERMOD := "/usr/sbin/usermod"
  const GROUPADD := "/usr/sbin/groupadd"
  const GROUPDEL := "/usr/sbin/groupdel"

  /** shadow-utils exit statuses: success, bad usage, a name that does not exist, a name already in use. */
  const E_SUCCESS := 0
  const E_USAGE := 2
  const E_NOTFOUND := 6
  const E_NAME_IN_USE := 9

  datatype Executed = Executed(state: HostState, rc: int)

  /** What running the program named by `argv[0]` with exactly the vector `argv` does to accounts and groups. */
  function Exec(st: HostState, argv: seq<string>): (e: Executed)
    ensures e.state.fs == st.fs && e.state.log == st.log && e.state.umask == st.umask
    ensures e.rc != E_SUCCESS ==> e.state == st
  {
    if |argv| == 5 && argv[0] == USERADD && argv[1] == "--shell" && argv[3] == "--create-home" then
      UserAdd(st, argv[4])
    else if |argv| == 2 && argv[0] == USERDEL then
      UserDel(st, argv[1])
    else if |argv| == 5 && argv[0] == USERMOD && argv[1] == "--append" && argv[2] == "--groups" then
      UserModAppend(st, argv[3], argv[4])
    else if |argv| == 4 && argv[0] == USERMOD && argv[1] == "-G" then
      UserModSet(st, argv[2], argv[3])
    else if |argv| == 2 && argv[0] == GROUPADD then
      GroupAdd(st, argv[1])
    else if |argv| == 2 && argv[0] == GROUPDEL then
      GroupDel(st, argv[1])
    else
      Executed(st, E_USAGE)
  }

  /** `useradd --shell S --create-home u`: a new account, refused when the name is taken. */
  function UserAdd(st: HostState, u: string): Executed
  {
    if u in st.accounts then Executed(st, E_NAME_IN_USE)
    else Executed(st.(accounts := st.accounts + {u}), E_SUCCESS)
  }

  /** `userdel u`: the account goes, and with it its place in every member list. */
  function UserDel(st: HostState, u: string): Executed
  {
    if u !in st.accounts then Executed(st, E_NOTFOUND)
    else Executed(st.(accounts := st.accounts - {u}, groups := RemoveFromAll(st.groups, u)), E_SUCCESS)
  }

  /** `usermod --append --groups g u`: `u` joins `g`, keeping its other groups. */
  function UserModAppend(st: HostState, g: string, u: string): Executed
  {
    if u !in st.accounts || !GroupExists(st.groups, g) then Executed(st, E_NOTFOUND)
    else Executed(st.(groups := AddToGroup(st.groups, g, u)), E_SUCCESS)
  }

  /**
   * `usermod -G list u`: the supplementary groups of `u` become exactly `list`. An empty list
   * clears them all; a non-empty list must name groups that exist (only one-name lists are
   * modelled: the core never passes more).
   */
  function UserModSet(st: HostState, list: string, u: string): Executed
  {
    if u !in st.accounts then Executed(st, E_NOTFOUND)
    else if list == [] then Executed(st.(groups := RemoveFromAll(st.groups, u)), E_SUCCESS)
    else if !GroupExists(st.groups, list) then Executed(st, E_NOTFOUND)
    else Executed(st.(groups := AddToGroup(RemoveFromAll(st.groups, u), list, u)), E_SUCCESS)
  }

  /** `groupadd g`: a new, empty group at the end of the database. */
  function GroupAdd(st: HostState, g: string): Executed
  {
    if GroupExists(st.groups, g) then Executed(st, E_NAME_IN_USE)
    else Executed(st.(groups := st.groups + [GroupEntry(g, [])]), E_SUCCESS)
  }

  /** `groupdel g`: every entry named `g` goes. */
  function GroupDel(st: HostState, g: string): Executed
  {
    if !GroupExists(st.groups, g) then Executed(st, E_NOTFOUND)
    else Executed(st.(groups := RemoveNamed(st.groups, g)), E_SUCCESS)
  }

  function RemoveNamed(groups: seq<GroupEntry>, g: string): (r: seq<GroupEntry>)
    ensures forall e :: e in r <==> e in groups && e.name != g
  {
    if groups == [] then []
    else (if groups[0].name == g then [] else [groups[0]]) + RemoveNamed(groups[1..], g)
  }

  /** `run_command(*args)`: the vector is logged and the program runs; its exit status is returned, never raised. */
  function Run(st: HostState, args: seq<string>, mode: ArgvMode): (e: Executed)
    ensures e.state.log == st.log + [Argv(mode, args)]
    ensures e.state.fs == st.fs && e.state.umask == st.umask
    ensures e.rc != E_SUCCESS ==> e.state == st.(log := st.log + [Argv(mode, args)])
  {
    var argv := Argv(mode, args);
    Exec(st.(log := st.log + [argv]), argv)
  }

  /** A program that is not userdel, groupdel or `usermod -G` takes no one out of any group. */
  lemma ExecKeepsMembers(st: HostState, argv: seq<string>, g: string)
    requires |argv| >= 2 && argv[0] != USERDEL && argv[0] != GROUPDEL && argv[1] != "-G"
    ensures forall x :: x in MembersOf(st.groups, g) ==> x in MembersOf(Exec(st, argv).state.groups, g)
  {
    var e := Exec(st, argv);
    if e.rc == E_SUCCESS && e.state.groups != st.groups {
      if |argv| == 5 && argv[0] == USERMOD && argv[1] == "--append" && argv[2] == "--groups" {
        MembersAfterAddToGroup(st.groups, argv[3], argv[4], g);
      } else {
        assert |argv| == 2 && argv[0] == GROUPADD;
        assert e.state.groups == st.groups + [GroupEntry(argv[1], [])];
        SameNamesPrefixFirst(st.groups, [GroupEntry(argv[1], [])], g);
      }
    }
  }

  /** Entries appended at the end do not move the first entry of a name that already exists. */
  lemma SameNamesPrefixFirst(gs: seq<GroupEntry>, more: seq<GroupEntry>, name: string)
    ensures FirstIndex(gs, name).Some? ==> FirstIndex(gs + more, name) == FirstIndex(gs, name)
  {
    var a, b := FirstIndex(gs, name), FirstIndex(gs + more, name);
    if a.Some? {
      assert (gs + more)[a.value] == gs[a.value];
    }
  }

  // ---------------------------------------------------------------------------------------------
  // Files

  /** `os.makedirs(path, mode)` for a path that does not exist: a directory owned by the caller (root) with `mode & ~umask`. */
  function MakeDir(st: HostState, path: string, mode: Mode): HostState
  {
    st.(fs := st.fs[path := Node(Directory, [], Masked(mode, st.umask), 0, 0)])
  }

  /** `os.chown(path, uid, gid)`. */
  function Chown(st: HostState, path: string, uid: nat, gid: nat): HostState
    requires path in st.fs
  {
    st.(fs := st.fs[path := st.fs[path].(uid := uid, gid := gid)])
  }

  /** `os.chmod(path, mode)`. */
  function Chmod(st: HostState, path: string, mode: Mode): HostState
    requires path in st.fs
  {
    st.(fs := st.fs[path := st.fs[path].(mode := mode)])
  }

  /**
   * `open(path, 'w').write(content)`: an existing file keeps its mode and owner and gets the
   * new content; a new one is owned by the caller (root) with mode 0o666 & ~umask.
   */
  function WriteFile(st: HostState, path: string, content: string): HostState
    requires path !in st.fs || st.fs[path].kind == RegularFile
  {
    if path in st.fs then st.(fs := st.fs[path := st.fs[path].(content := content)])
    else st.(fs := st.fs[path := Node(RegularFile, content, Masked(OPEN_CREATE_MODE, st.umask), 0, 0)])
  }

  /** `shutil.copyfile(src, dst)`: the data of `src` written to `dst`, whose mode is kept when it exists. */
  function CopyFile(st: HostState, src: string, dst: string): HostState
    requires src in st.fs && st.fs[src].kind == RegularFile
    requires dst !in st.fs || st.fs[dst].kind == RegularFile
  {
    WriteFile(st, dst, st.fs[src].content)
  }

  /** `os.remove(path)`. */
  function RemoveFile(st: HostState, path: string): HostState
  {
    st.(fs := st.fs - {path})
  }

  // ---------------------------------------------------------------------------------------------
  // The host as the core sees it: one object whose fields the primitives update

  class Host {
    var accounts: set<string>
    var groups: seq<GroupEntry>
    var fs: map<string, Node>
    var log: seq<seq<string>>
    const umask: Mode
    /** How `run_command` builds argument vectors on this host; the source's behaviour is QuoteEach. */
    const argvMode: ArgvMode

    function State(): HostState
      reads this
    {
      HostState(accounts, groups, fs, log, umask)
    }

    constructor (init: HostState, argvMode: ArgvMode)
      ensures State() == init && this.argvMode == argvMode
    {
      accounts, groups, fs, log := init.accounts, init.groups, init.fs, init.log;
      umask := init.umask;
      this.argvMode := argvMode;
    }

    method SetState(st: HostState)
      requires st.umask == umask
      modifies this
      ensures State() == st
    {
      accounts, groups, fs, log := st.accounts, st.groups, st.fs, st.log;
    }

    /** `run_command(*args)`; only the exit status of the `(rc, stdout, stderr)` triple is modelled. */
    method RunCommand(args: seq<string>) returns (rc: int)
      modifies this
      ensures State() == Run(old(State()), args, argvMode).state
      ensures rc == Run(old(State()), args, argvMode).rc
    {
      var e := Run(State(), args, argvMode);
      SetState(e.state);
      rc := e.rc;
    }

    /** `pwd.getpwnam(name)` does not raise KeyError. */
    method AccountExists(name: string) returns (b: bool)
      ensures b <==> name in accounts
    {
      b := name in accounts;
    }

    /** `grp.getgrall()`. */
    method GroupDatabase() returns (entries: seq<GroupEntry>)
      ensures entries == groups
    {
      entries := groups;
    }

    /** `os.path.exists(path)`. */
    method PathExists(path: string) returns (b: bool)
      ensures b <==> path in fs
    {
      b := path in fs;
    }

    /** `open(path, 'rb').read()`; None stands for the IOError of a missing file or a directory. */
    method ReadFile(path: string) returns (content: Option<string>)
      ensures content == if path in fs && fs[path].kind == RegularFile then Some(fs[path].content) else None
    {
      content := if path in fs && fs[path].kind == RegularFile then Some(fs[path].content) else None;
    }

    method MakeDirs(path: string, mode: Mode)
      modifies this
      ensures State() == MakeDir(old(State()), path, mode)
    {
      SetState(MakeDir(State(), path, mode));
    }

    method ChangeOwner(path: string, uid: nat, gid: nat)
      requires path in fs
      modifies this
      ensures State() == Chown(old(State()), path, uid, gid)
    {
      SetState(Chown(State(), path, uid, gid));
    }

    method ChangeMode(path: string, mode: Mode)
      requires path in fs
      modifies this
      ensures State() == Chmod(old(State()), path, mode)
    {
      SetState(Chmod(State(), path, mode));
    }

    method Write(path: string, content: string)
      requires path !in fs || fs[path].kind == RegularFile
      modifies this
      ensures State() == WriteFile(old(State()), path, content)
    {
      SetState(WriteFile(State(), path, content));
    }

    method Copy(src: string, dst: string)
      requires src in fs && fs[src].kind == RegularFile
      requires dst !in fs || fs[dst].kind == RegularFile
      modifies this
      ensures State() == CopyFile(old(State()), src, dst)
    {
      SetState(CopyFile(State(), src, dst));
    }

    method Remove(path: string)
      requires path in fs
      modifies this
      ensures State() == RemoveFile(old(State()), path)
    {
      SetState(RemoveFile(State(), path));
    }
  }
}

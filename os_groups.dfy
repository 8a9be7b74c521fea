/**
 * `OsGroup` and `create_os_user` of ec2_ssh/auth.py: the members of a local group, adding and
 * removing one member through usermod, and `sync`, which converges the group onto a desired
 * list of directory user names.
 */
module OsGroups {
  import opened Wrappers
  import opened Utils
  import opened Posix
  import opened OsUsers

  function AddUserArgs(group: string, username: string): seq<string>
  {
    [USERMOD, "--append", "--groups", group, username]
  }

  /** `usermod -G "" username`: meant to take `username` out of every supplementary group, not only this one. */
  function RemoveUserArgs(username: string): seq<string>
  {
    [USERMOD, "-G", "", username]
  }

  /** `OsGroup.add_user`. */
  function MemberAdded(st: HostState, group: string, username: string, mode: ArgvMode): HostState
  {
    Run(st, AddUserArgs(group, username), mode).state
  }

  /** `OsGroup.remove_user`. */
  function MemberRemoved(st: HostState, username: string, mode: ArgvMode): HostState
  {
    Run(st, RemoveUserArgs(username), mode).state
  }

  /**
   * `create_os_user(username, group)`: the account is looked up and created under the
   * normalized name, but the raw `username` is what joins the group; sudo is granted exactly
   * when the group is a sudo group.
   */
  function CreatedAndAdded(st: HostState, username: string, group: string, isSudoGroup: bool, mode: ArgvMode): HostState
  {
    var name := Normalize(username);
    var created := if name in st.accounts then st else CreateAccount(st, name, mode);
    var added := MemberAdded(created, group, username, mode);
    if isSudoGroup then GrantSudo(added, name) else added
  }

  /** What `create_os_user` logs, and which sudoers fragment it leaves. */
  lemma CreatedAndAddedEffects(st: HostState, username: string, group: string, isSudoGroup: bool, mode: ArgvMode)
    ensures var r := CreatedAndAdded(st, username, group, isSudoGroup, mode);
      var name := Normalize(username);
      r.log == st.log + (if name in st.accounts then [] else [Argv(mode, UserAddArgs(name))])
                      + [Argv(mode, AddUserArgs(group, username))]
      && (isSudoGroup ==> SudoersPath(name) in r.fs)
      && (!isSudoGroup ==> r.fs == st.fs)
  {
  }

  // ---------------------------------------------------------------------------------------------
  // The reconciliation

  /** The elements of `s`, in order, that do not occur in `other`. */
  function Outside(s: seq<string>, other: seq<string>): (r: seq<string>)
    ensures forall x :: x in r <==> x in s && x !in other
  {
    if s == [] then [] else (if s[0] in other then [] else [s[0]]) + Outside(s[1..], other)
  }

  lemma {:induction false} OutsideAppend(s: seq<string>, u: string, other: seq<string>)
    ensures Outside(s + [u], other) == Outside(s, other) + (if u in other then [] else [u])
  {
    var last := if u in other then [] else [u];
    if s == [] {
      assert s + [u] == [u] && [u][1..] == [];
      assert Outside([u], other) == last + Outside([], other);
    } else {
      var t, head := s + [u], if s[0] in other then [] else [s[0]];
      assert t[0] == s[0] && t[1..] == s[1..] + [u];
      OutsideAppend(s[1..], u, other);
      assert Outside(t, other) == head + (Outside(s[1..], other) + last);
      assert head + (Outside(s[1..], other) + last) == (head + Outside(s[1..], other)) + last;
    }
  }

  /** First pass of `sync`: in snapshot order, `remove_user` for every member not in the desired list. */
  function StaleRemoved(st: HostState, snapshot: seq<string>, desired: seq<string>, mode: ArgvMode): HostState
  {
    if snapshot == [] then st
    else
      var before := StaleRemoved(st, snapshot[..|snapshot| - 1], desired, mode);
      var u := snapshot[|snapshot| - 1];
      if u in desired then before else MemberRemoved(before, u, mode)
  }

  /** Second pass of `sync`: in desired order, `create_os_user` for every desired name not in the snapshot. */
  function MissingAdded(st: HostState, group: string, isSudoGroup: bool, desired: seq<string>, snapshot: seq<string>, mode: ArgvMode): HostState
  {
    if desired == [] then st
    else
      var before := MissingAdded(st, group, isSudoGroup, desired[..|desired| - 1], snapshot, mode);
      var u := desired[|desired| - 1];
      if u in snapshot then before else CreatedAndAdded(before, u, group, isSudoGroup, mode)
  }

  lemma StaleRemovedStep(st: HostState, snapshot: seq<string>, i: nat, desired: seq<string>, mode: ArgvMode)
    requires i < |snapshot|
    ensures var before := StaleRemoved(st, snapshot[..i], desired, mode);
      StaleRemoved(st, snapshot[..i + 1], desired, mode) ==
        if snapshot[i] in desired then before else MemberRemoved(before, snapshot[i], mode)
  {
    assert snapshot[..i + 1][..i] == snapshot[..i];
  }

  lemma MissingAddedStep(st: HostState, group: string, isSudoGroup: bool, desired: seq<string>, j: nat, snapshot: seq<string>, mode: ArgvMode)
    requires j < |desired|
    ensures var before := MissingAdded(st, group, isSudoGroup, desired[..j], snapshot, mode);
      MissingAdded(st, group, isSudoGroup, desired[..j + 1], snapshot, mode) ==
        if desired[j] in snapshot then before else CreatedAndAdded(before, desired[j], group, isSudoGroup, mode)
  {
    assert desired[..j + 1][..j] == desired[..j];
  }

  /** One iteration of the addition loop, stated on the states before and after it. */
  lemma AddedOneMore(st: HostState, before: HostState, after: HostState, group: string, isSudoGroup: bool,
                     desired: seq<string>, j: nat, snapshot: seq<string>, mode: ArgvMode)
    requires j < |desired|
    requires before == MissingAdded(st, group, isSudoGroup, desired[..j], snapshot, mode)
    requires after == if desired[j] in snapshot then before else CreatedAndAdded(before, desired[j], group, isSudoGroup, mode)
    ensures after == MissingAdded(st, group, isSudoGroup, desired[..j + 1], snapshot, mode)
  {
    MissingAddedStep(st, group, isSudoGroup, desired, j, snapshot, mode);
  }

  /** `OsGroup.sync(iam_users)`: one snapshot of the members, then the removals, then the additions. */
  function Synced(st: HostState, group: string, isSudoGroup: bool, desired: seq<string>, mode: ArgvMode): HostState
  {
    var snapshot := MembersOf(st.groups, group);
    MissingAdded(StaleRemoved(st, snapshot, desired, mode), group, isSudoGroup, desired, snapshot, mode)
  }

  // ---------------------------------------------------------------------------------------------
  // The commands `sync` issues

  function RemovalCommands(users: seq<string>, mode: ArgvMode): (cmds: seq<seq<string>>)
    ensures |cmds| == |users| && forall i :: 0 <= i < |users| ==> cmds[i] == Argv(mode, RemoveUserArgs(users[i]))
  {
    seq(|users|, i requires 0 <= i < |users| => Argv(mode, RemoveUserArgs(users[i])))
  }

  /**
   * The log of the second pass: for each user, in order, an optional useradd of its normalized
   * name followed by the usermod that adds the raw name to the group.
   */
  predicate AdditionLog(entries: seq<seq<string>>, users: seq<string>, group: string, mode: ArgvMode)
    decreases |users|
  {
    if users == [] then entries == []
    else
      var add := Argv(mode, AddUserArgs(group, users[0]));
      var create := Argv(mode, UserAddArgs(Normalize(users[0])));
      (|entries| >= 1 && entries[0] == add && AdditionLog(entries[1..], users[1..], group, mode)) ||
      (|entries| >= 2 && entries[0] == create && entries[1] == add && AdditionLog(entries[2..], users[1..], group, mode))
  }

  /** From position `k` on, `log` is an addition log for `users`. */
  predicate AdditionsFrom(log: seq<seq<string>>, k: nat, users: seq<string>, group: string, mode: ArgvMode)
  {
    k <= |log| && AdditionLog(log[k..], users, group, mode)
  }

  lemma {:induction false} AdditionLogAppend(a: seq<seq<string>>, users: seq<string>, b: seq<seq<string>>, u: string, group: string, mode: ArgvMode)
    requires AdditionLog(a, users, group, mode) && AdditionLog(b, [u], group, mode)
    ensures AdditionLog(a + b, users + [u], group, mode)
    decreases |users|
  {
    if users == [] {
      assert a == [] && a + b == b && users + [u] == [u];
    } else {
      var us, ab := users + [u], a + b;
      assert us[0] == users[0] && us[1..] == users[1..] + [u];
      var add := Argv(mode, AddUserArgs(group, users[0]));
      var create := Argv(mode, UserAddArgs(Normalize(users[0])));
      if |a| >= 1 && a[0] == add && AdditionLog(a[1..], users[1..], group, mode) {
        AdditionLogAppend(a[1..], users[1..], b, u, group, mode);
        DropAppend(a, b, 1);
        assert ab[0] == add;
      } else {
        assert |a| >= 2 && a[0] == create && a[1] == add && AdditionLog(a[2..], users[1..], group, mode);
        AdditionLogAppend(a[2..], users[1..], b, u, group, mode);
        DropAppend(a, b, 2);
        assert ab[0] == create && ab[1] == add;
      }
    }
  }

  /** The first pass issues `remove_user` for exactly the stale members, in snapshot order, and touches no file. */
  lemma {:induction false} StaleRemovedLog(st: HostState, snapshot: seq<string>, desired: seq<string>, mode: ArgvMode)
    ensures StaleRemoved(st, snapshot, desired, mode).log == st.log + RemovalCommands(Outside(snapshot, desired), mode)
    ensures StaleRemoved(st, snapshot, desired, mode).fs == st.fs
    ensures StaleRemoved(st, snapshot, desired, mode).umask == st.umask
  {
    if snapshot != [] {
      var front, u := snapshot[..|snapshot| - 1], snapshot[|snapshot| - 1];
      StaleRemovedLog(st, front, desired, mode);
      FrontLast(snapshot);
      OutsideAppend(front, u, desired);
      var before := StaleRemoved(st, front, desired, mode);
      if u in desired {
        assert StaleRemoved(st, snapshot, desired, mode) == before;
      } else {
        assert StaleRemoved(st, snapshot, desired, mode) == MemberRemoved(before, u, mode);
        var a, c := RemovalCommands(Outside(front, desired), mode), Argv(mode, RemoveUserArgs(u));
        assert MemberRemoved(before, u, mode).log == (st.log + a) + [c];
        RemovalCommandsAppend(Outside(front, desired), u, mode);
        assert (st.log + a) + [c] == st.log + (a + [c]);
      }
    }
  }

  lemma RemovalCommandsAppend(users: seq<string>, u: string, mode: ArgvMode)
    ensures RemovalCommands(users + [u], mode) == RemovalCommands(users, mode) + [Argv(mode, RemoveUserArgs(u))]
  {
    var l, r := RemovalCommands(users + [u], mode), RemovalCommands(users, mode) + [Argv(mode, RemoveUserArgs(u))];
    assert |l| == |r|;
    forall i | 0 <= i < |l| ensures l[i] == r[i] {
      if i < |users| {
        assert (users + [u])[i] == users[i];
      }
    }
  }

  /** The second pass logs, for exactly the missing names in desired order, an optional useradd and the usermod that adds it. */
  lemma {:induction false} MissingAddedLog(st: HostState, group: string, isSudoGroup: bool, desired: seq<string>, snapshot: seq<string>, mode: ArgvMode)
    ensures var r := MissingAdded(st, group, isSudoGroup, desired, snapshot, mode);
      |st.log| <= |r.log| && r.log[..|st.log|] == st.log &&
      AdditionLog(r.log[|st.log|..], Outside(desired, snapshot), group, mode)
  {
    var r := MissingAdded(st, group, isSudoGroup, desired, snapshot, mode);
    if desired == [] {
      assert r.log[|st.log|..] == [];
    } else {
      var front, u := desired[..|desired| - 1], desired[|desired| - 1];
      MissingAddedLog(st, group, isSudoGroup, front, snapshot, mode);
      FrontLast(desired);
      OutsideAppend(front, u, snapshot);
      var before := MissingAdded(st, group, isSudoGroup, front, snapshot, mode);
      if u in snapshot {
        assert r == before;
        assert Outside(desired, snapshot) == Outside(front, snapshot);
      } else {
        assert r == CreatedAndAdded(before, u, group, isSudoGroup, mode);
        assert Outside(desired, snapshot) == Outside(front, snapshot) + [u];
        CreatedAndAddedLog(before, u, group, isSudoGroup, mode);
        var seg := r.log[|before.log|..];
        SliceSplit(st.log, before.log, r.log);
        AdditionLogAppend(before.log[|st.log|..], Outside(front, snapshot), seg, u, group, mode);
      }
    }
  }

  lemma DropAppend<T>(a: seq<T>, b: seq<T>, k: nat)
    requires k <= |a|
    ensures (a + b)[k..] == a[k..] + b
  {
  }

  lemma FrontLast<T>(s: seq<T>)
    requires s != []
    ensures s == s[..|s| - 1] + [s[|s| - 1]]
  {
  }

  lemma SliceSplit<T>(a: seq<T>, b: seq<T>, c: seq<T>)
    requires |a| <= |b| <= |c| && b[..|a|] == a && c[..|b|] == b
    ensures c[..|a|] == a && c[|a|..] == b[|a|..] + c[|b|..]
  {
    assert c[..|a|] == c[..|b|][..|a|];
  }

  /** One `create_os_user` extends the log by one addition entry. */
  lemma CreatedAndAddedLog(st: HostState, u: string, group: string, isSudoGroup: bool, mode: ArgvMode)
    ensures var r := CreatedAndAdded(st, u, group, isSudoGroup, mode);
      |st.log| <= |r.log| && r.log[..|st.log|] == st.log &&
      AdditionLog(r.log[|st.log|..], [u], group, mode)
  {
    var r := CreatedAndAdded(st, u, group, isSudoGroup, mode);
    var add := Argv(mode, AddUserArgs(group, u));
    var create := Argv(mode, UserAddArgs(Normalize(u)));
    var seg := if Normalize(u) in st.accounts then [add] else [create, add];
    assert r.log == st.log + seg by {
      CreatedAndAddedEffects(st, u, group, isSudoGroup, mode);
    }
    assert r.log[..|st.log|] == st.log && r.log[|st.log|..] == seg;
    OneAddition(u, group, mode);
  }

  /** The entries one `create_os_user` may log form an addition log for that one user. */
  lemma OneAddition(u: string, group: string, mode: ArgvMode)
    ensures var add := Argv(mode, AddUserArgs(group, u));
      AdditionLog([add], [u], group, mode) &&
      AdditionLog([Argv(mode, UserAddArgs(Normalize(u)))] + [add], [u], group, mode)
  {
    var add := Argv(mode, AddUserArgs(group, u));
    var both := [Argv(mode, UserAddArgs(Normalize(u)))] + [add];
    assert [u][0] == u && [u][1..] == [];
    assert [add][1..] == [] && both[2..] == [];
    assert AdditionLog([], [], group, mode);
  }

  /** The log of `sync` starts with one `remove_user` per stale member of the snapshot, in snapshot order. */
  lemma {:induction false} SyncLog(st: HostState, group: string, isSudoGroup: bool, desired: seq<string>, mode: ArgvMode)
    ensures var r := Synced(st, group, isSudoGroup, desired, mode);
      var removals := RemovalCommands(Outside(MembersOf(st.groups, group), desired), mode);
      |st.log| + |removals| <= |r.log| && r.log[..|st.log| + |removals|] == st.log + removals
  {
    var snapshot := MembersOf(st.groups, group);
    var removals := RemovalCommands(Outside(snapshot, desired), mode);
    var mid := StaleRemoved(st, snapshot, desired, mode);
    var r := MissingAdded(mid, group, isSudoGroup, desired, snapshot, mode);
    assert Synced(st, group, isSudoGroup, desired, mode) == r;
    assert mid.log == st.log + removals by {
      StaleRemovedLog(st, snapshot, desired, mode);
    }
    assert |mid.log| <= |r.log| && r.log[..|mid.log|] == mid.log by {
      MissingAddedLog(mid, group, isSudoGroup, desired, snapshot, mode);
    }
    assert r.log[..|mid.log|][..|st.log| + |removals|] == r.log[..|st.log| + |removals|];
  }

  /**
   * After the removals, the log of `sync` holds the additions for exactly the desired names that
   * were not in the snapshot, in desired order: no removal follows an addition.
   */
  lemma {:induction false} SyncAdditionsLog(st: HostState, group: string, isSudoGroup: bool, desired: seq<string>, mode: ArgvMode)
    ensures var snapshot := MembersOf(st.groups, group);
      var r := Synced(st, group, isSudoGroup, desired, mode);
      AdditionsFrom(r.log, |st.log| + |Outside(snapshot, desired)|, Outside(desired, snapshot), group, mode)
  {
    var snapshot := MembersOf(st.groups, group);
    var removals := RemovalCommands(Outside(snapshot, desired), mode);
    var mid := StaleRemoved(st, snapshot, desired, mode);
    var r := MissingAdded(mid, group, isSudoGroup, desired, snapshot, mode);
    assert Synced(st, group, isSudoGroup, desired, mode) == r;
    assert |mid.log| == |st.log| + |Outside(snapshot, desired)| by {
      StaleRemovedLog(st, snapshot, desired, mode);
    }
    assert |mid.log| <= |r.log| && AdditionLog(r.log[|mid.log|..], Outside(desired, snapshot), group, mode) by {
      MissingAddedLog(mid, group, isSudoGroup, desired, snapshot, mode);
    }
  }

  // ---------------------------------------------------------------------------------------------
  // What `sync` does to the group

  /** When the members already are the desired names, `sync` runs nothing and changes nothing. */
  lemma {:induction false} ConvergedSyncIsNoOp(st: HostState, group: string, isSudoGroup: bool, desired: seq<string>, mode: ArgvMode)
    requires forall x :: x in MembersOf(st.groups, group) <==> x in desired
    ensures Synced(st, group, isSudoGroup, desired, mode) == st
  {
    var snapshot := MembersOf(st.groups, group);
    NothingStale(st, snapshot, desired, mode);
    NothingMissing(st, group, isSudoGroup, desired, snapshot, mode);
  }

  lemma {:induction false} NothingStale(st: HostState, snapshot: seq<string>, desired: seq<string>, mode: ArgvMode)
    requires forall x :: x in snapshot ==> x in desired
    ensures StaleRemoved(st, snapshot, desired, mode) == st
  {
    if snapshot != [] {
      assert snapshot[|snapshot| - 1] in snapshot;
      NothingStale(st, snapshot[..|snapshot| - 1], desired, mode);
    }
  }

  lemma {:induction false} NothingMissing(st: HostState, group: string, isSudoGroup: bool, desired: seq<string>, snapshot: seq<string>, mode: ArgvMode)
    requires forall x :: x in desired ==> x in snapshot
    ensures MissingAdded(st, group, isSudoGroup, desired, snapshot, mode) == st
  {
    if desired != [] {
      assert desired[|desired| - 1] in desired;
      NothingMissing(st, group, isSudoGroup, desired[..|desired| - 1], snapshot, mode);
    }
  }

  /** With arguments passed verbatim, `remove_user` of an existing account takes it out of the group. */
  lemma MemberRemovedVerbatim(st: HostState, group: string, u: string)
    requires u in st.accounts
    ensures var r := MemberRemoved(st, u, Verbatim);
      r.accounts == st.accounts &&
      FirstIndex(r.groups, group) == FirstIndex(st.groups, group) &&
      forall x :: x in MembersOf(r.groups, group) <==> x in MembersOf(st.groups, group) && x != u
  {
    var r := MemberRemoved(st, u, Verbatim);
    assert r.groups == RemoveFromAll(st.groups, u);
    MembersAfterRemoveFromAll(st.groups, group, u);
    SameNamesSameFirst(st.groups, r.groups, group);
  }

  lemma MemberAddedVerbatim(st: HostState, group: string, u: string)
    requires u in st.accounts && GroupExists(st.groups, group)
    ensures MemberAdded(st, group, u, Verbatim).groups == AddToGroup(st.groups, group, u)
  {
    var argv := Argv(Verbatim, AddUserArgs(group, u));
    assert argv == AddUserArgs(group, u);
    assert Exec(st.(log := st.log + [argv]), argv) == UserModAppend(st.(log := st.log + [argv]), group, u);
  }

  /** With arguments passed verbatim, `create_os_user` of a name in normal form makes it a member of an existing group. */
  lemma CreatedAndAddedVerbatim(st: HostState, u: string, group: string, isSudoGroup: bool)
    requires GroupExists(st.groups, group) && Normalize(u) == u
    ensures var r := CreatedAndAdded(st, u, group, isSudoGroup, Verbatim);
      FirstIndex(r.groups, group) == FirstIndex(st.groups, group) &&
      forall x :: x in MembersOf(r.groups, group) <==> x in MembersOf(st.groups, group) || x == u
  {
    var created := if u in st.accounts then st else CreateAccount(st, u, Verbatim);
    assert created.groups == st.groups && u in created.accounts;
    var added := MemberAdded(created, group, u, Verbatim);
    MemberAddedVerbatim(created, group, u);
    MembersAfterAddToGroup(created.groups, group, u, group);
    SameNamesSameFirst(created.groups, added.groups, group);
  }

  /** With arguments passed verbatim, the first pass takes every stale member out of the group and keeps the others. */
  lemma {:induction false} StaleRemovedMembers(st: HostState, group: string, snapshot: seq<string>, desired: seq<string>)
    requires forall x :: x in snapshot ==> x in st.accounts
    ensures var r := StaleRemoved(st, snapshot, desired, Verbatim);
      r.accounts == st.accounts &&
      FirstIndex(r.groups, group) == FirstIndex(st.groups, group) &&
      forall x :: x in MembersOf(r.groups, group) <==> x in MembersOf(st.groups, group) && !(x in snapshot && x !in desired)
  {
    if snapshot != [] {
      var front, u := snapshot[..|snapshot| - 1], snapshot[|snapshot| - 1];
      assert forall x :: x in front ==> x in snapshot;
      StaleRemovedMembers(st, group, front, desired);
      var before := StaleRemoved(st, front, desired, Verbatim);
      assert forall x :: x in snapshot <==> x in front || x == u by {
        FrontLast(snapshot);
      }
      if u in desired {
        assert StaleRemoved(st, snapshot, desired, Verbatim) == before;
      } else {
        assert StaleRemoved(st, snapshot, desired, Verbatim) == MemberRemoved(before, u, Verbatim);
        assert u in before.accounts;
        MemberRemovedVerbatim(before, group, u);
      }
    }
  }

  /** With arguments passed verbatim and names already in normal form, the second pass adds every missing name and removes no one. */
  lemma {:induction false} MissingAddedMembers(st: HostState, group: string, isSudoGroup: bool, desired: seq<string>, snapshot: seq<string>)
    requires GroupExists(st.groups, group)
    requires forall x :: x in desired ==> Normalize(x) == x
    ensures var r := MissingAdded(st, group, isSudoGroup, desired, snapshot, Verbatim);
      FirstIndex(r.groups, group) == FirstIndex(st.groups, group) &&
      forall x :: x in MembersOf(r.groups, group) <==> x in MembersOf(st.groups, group) || (x in desired && x !in snapshot)
  {
    if desired != [] {
      var front, u := desired[..|desired| - 1], desired[|desired| - 1];
      assert forall x :: x in front ==> x in desired;
      MissingAddedMembers(st, group, isSudoGroup, front, snapshot);
      var before := MissingAdded(st, group, isSudoGroup, front, snapshot, Verbatim);
      FrontLast(desired);
      if u !in snapshot {
        assert Normalize(u) == u;
        CreatedAndAddedVerbatim(before, u, group, isSudoGroup);
      }
    }
  }

  /**
   * With arguments passed verbatim, `sync` converges: afterwards the members of the group are
   * exactly the desired names, provided the group exists, its members have accounts, and the
   * desired names are in normal form (so that the account created and the name added agree).
   */
  lemma SyncConverges(st: HostState, group: string, isSudoGroup: bool, desired: seq<string>)
    requires GroupExists(st.groups, group)
    requires forall x :: x in MembersOf(st.groups, group) ==> x in st.accounts
    requires forall x :: x in desired ==> Normalize(x) == x
    ensures forall x :: x in MembersOf(Synced(st, group, isSudoGroup, desired, Verbatim).groups, group) <==> x in desired
  {
    var snapshot := MembersOf(st.groups, group);
    StaleRemovedMembers(st, group, snapshot, desired);
    var mid := StaleRemoved(st, snapshot, desired, Verbatim);
    MissingAddedMembers(mid, group, isSudoGroup, desired, snapshot);
  }

  /** Under the same conditions, a second `sync` with the same list changes nothing and runs no command. */
  lemma SyncTwiceIsSyncOnce(st: HostState, group: string, isSudoGroup: bool, desired: seq<string>)
    requires GroupExists(st.groups, group)
    requires forall x :: x in MembersOf(st.groups, group) ==> x in st.accounts
    requires forall x :: x in desired ==> Normalize(x) == x
    ensures var once := Synced(st, group, isSudoGroup, desired, Verbatim);
      Synced(once, group, isSudoGroup, desired, Verbatim) == once
  {
    SyncConverges(st, group, isSudoGroup, desired);
    var once := Synced(st, group, isSudoGroup, desired, Verbatim);
    ConvergedSyncIsNoOp(once, group, isSudoGroup, desired, Verbatim);
  }

  /**
   * As written (every argument quoted, no shell), `remove_user` hands usermod the two-character
   * group list `''`; with no group of that name, usermod fails and the first pass leaves the
   * accounts and groups as they were.
   */
  lemma {:induction false} StaleRemovedAsWrittenChangesNoGroup(st: HostState, snapshot: seq<string>, desired: seq<string>)
    requires !GroupExists(st.groups, "''")
    ensures var r := StaleRemoved(st, snapshot, desired, QuoteEach);
      r.accounts == st.accounts && r.groups == st.groups
  {
    if snapshot != [] {
      var front, u := snapshot[..|snapshot| - 1], snapshot[|snapshot| - 1];
      StaleRemovedAsWrittenChangesNoGroup(st, front, desired);
      var before := StaleRemoved(st, front, desired, QuoteEach);
      if u !in desired {
        ProgramsAreSafe();
        FlagsAreSafe();
        var argv := Argv(QuoteEach, RemoveUserArgs(u));
        assert argv[0] == USERMOD && argv[1] == "-G" && argv[2] == "''";
      }
    }
  }

  /** In either argument mode, one `create_os_user` takes no one out of any group. */
  lemma CreatedAndAddedKeepsMembers(st: HostState, u: string, group: string, isSudoGroup: bool, mode: ArgvMode, other: string)
    ensures forall x :: x in MembersOf(st.groups, other) ==>
      x in MembersOf(CreatedAndAdded(st, u, group, isSudoGroup, mode).groups, other)
  {
    ProgramsAreSafe();
    FlagsAreSafe();
    var name := Normalize(u);
    var create := Argv(mode, UserAddArgs(name));
    assert create[0] == USERADD && create[1] == "--shell";
    var created := if name in st.accounts then st else CreateAccount(st, name, mode);
    if name !in st.accounts {
      ExecKeepsMembers(st.(log := st.log + [create]), create, other);
    }
    var add := Argv(mode, AddUserArgs(group, u));
    assert add[0] == USERMOD && add[1] == "--append";
    ExecKeepsMembers(created.(log := created.log + [add]), add, other);
  }

  /** In either argument mode, the second pass takes no one out of any group. */
  lemma {:induction false} MissingAddedKeepsMembers(st: HostState, group: string, isSudoGroup: bool, desired: seq<string>, snapshot: seq<string>, mode: ArgvMode, other: string)
    ensures forall x :: x in MembersOf(st.groups, other) ==>
      x in MembersOf(MissingAdded(st, group, isSudoGroup, desired, snapshot, mode).groups, other)
  {
    if desired != [] {
      var front, u := desired[..|desired| - 1], desired[|desired| - 1];
      MissingAddedKeepsMembers(st, group, isSudoGroup, front, snapshot, mode, other);
      var before := MissingAdded(st, group, isSudoGroup, front, snapshot, mode);
      if u !in snapshot {
        CreatedAndAddedKeepsMembers(before, u, group, isSudoGroup, mode, other);
      }
    }
  }

  /**
   * As written, `sync` never takes a member out of the group: every member of the snapshot,
   * stale or not, is still a member afterwards.
   */
  lemma SyncAsWrittenKeepsStaleMembers(st: HostState, group: string, isSudoGroup: bool, desired: seq<string>)
    requires !GroupExists(st.groups, "''")
    ensures forall x :: x in MembersOf(st.groups, group) ==>
      x in MembersOf(Synced(st, group, isSudoGroup, desired, QuoteEach).groups, group)
  {
    var snapshot := MembersOf(st.groups, group);
    StaleRemovedAsWrittenChangesNoGroup(st, snapshot, desired);
    var mid := StaleRemoved(st, snapshot, desired, QuoteEach);
    MissingAddedKeepsMembers(mid, group, isSudoGroup, desired, snapshot, QuoteEach, group);
  }

  // ---------------------------------------------------------------------------------------------
  // A worked example: the group "devteam" has bob and carol; the directory lists carol and dave

  const DEVTEAM := "devteam"

  /** bob and carol have accounts and are the members of devteam; dave has no account yet. */
  function DevteamHost(): HostState
  {
    HostState({"bob", "carol"}, [GroupEntry(DEVTEAM, ["bob", "carol"])], map[], [], 0x12)
  }

  /** `members` of devteam on that host. */
  function DevteamSnapshot(): (users: seq<string>)
    ensures users == MembersOf(DevteamHost().groups, DEVTEAM)
  {
    assert FirstIndex(DevteamHost().groups, DEVTEAM) == Some(0);
    ["bob", "carol"]
  }

  /** The removal pass over the snapshot [bob, carol] against [carol, dave] removes bob alone. */
  lemma DevteamStale(mode: ArgvMode)
    ensures StaleRemoved(DevteamHost(), ["bob", "carol"], ["carol", "dave"], mode) ==
      MemberRemoved(DevteamHost(), "bob", mode)
  {
    var st, snapshot, desired := DevteamHost(), ["bob", "carol"], ["carol", "dave"];
    assert snapshot[..1] == ["bob"] && ["bob"][..0] == [];
    assert StaleRemoved(st, ["bob"], desired, mode) == MemberRemoved(st, "bob", mode);
  }

  /** The addition pass over [carol, dave] against the snapshot [bob, carol] creates and adds dave alone. */
  lemma DevteamMissing(st: HostState, mode: ArgvMode)
    ensures MissingAdded(st, DEVTEAM, false, ["carol", "dave"], ["bob", "carol"], mode) ==
      CreatedAndAdded(st, "dave", DEVTEAM, false, mode)
  {
    var desired, snapshot := ["carol", "dave"], ["bob", "carol"];
    assert desired[..1] == ["carol"] && ["carol"][..0] == [];
    assert MissingAdded(st, DEVTEAM, false, ["carol"], snapshot, mode) == st;
  }

  /** The commands that create and add dave need no quoting. */
  lemma DaveArgsUnquoted(mode: ArgvMode)
    ensures Argv(mode, UserAddArgs("dave")) == UserAddArgs("dave")
    ensures Argv(mode, AddUserArgs(DEVTEAM, "dave")) == AddUserArgs(DEVTEAM, "dave")
  {
    ProgramsAreSafe();
    FlagsAreSafe();
    assert IsSafe("dave") && IsSafe(DEVTEAM);
  }

  /** useradd for dave, on a host where dave has no account. */
  lemma DaveCreated(st: HostState, mode: ArgvMode)
    requires "dave" !in st.accounts
    ensures CreateAccount(st, "dave", mode) ==
      st.(accounts := st.accounts + {"dave"}, log := st.log + [UserAddArgs("dave")])
  {
    DaveArgsUnquoted(mode);
  }

  /** `usermod --append --groups devteam dave`, with devteam the only group. */
  lemma DaveAdded(st: HostState, members: seq<string>, mode: ArgvMode)
    requires "dave" in st.accounts && "dave" !in members
    requires st.groups == [GroupEntry(DEVTEAM, members)]
    ensures MemberAdded(st, DEVTEAM, "dave", mode) ==
      st.(groups := [GroupEntry(DEVTEAM, members + ["dave"])], log := st.log + [AddUserArgs(DEVTEAM, "dave")])
  {
    DaveArgsUnquoted(mode);
    assert FirstIndex(st.groups, DEVTEAM) == Some(0);
    assert AddToGroup(st.groups, DEVTEAM, "dave") == [GroupEntry(DEVTEAM, members + ["dave"])];
  }

  /** `create_os_user("dave", devteam)` on a host where dave has no account and devteam is the only group. */
  lemma DevteamAddDave(st: HostState, members: seq<string>, mode: ArgvMode)
    requires "dave" !in st.accounts && "dave" !in members
    requires st.groups == [GroupEntry(DEVTEAM, members)]
    ensures CreatedAndAdded(st, "dave", DEVTEAM, false, mode) ==
      st.(accounts := st.accounts + {"dave"}, groups := [GroupEntry(DEVTEAM, members + ["dave"])],
          log := st.log + [UserAddArgs("dave"), AddUserArgs(DEVTEAM, "dave")])
  {
    NormalizeWithoutAt("dave", 2);
    DaveCreated(st, mode);
    var s2 := CreateAccount(st, "dave", mode);
    DaveAdded(s2, members, mode);
    assert s2.log + [AddUserArgs(DEVTEAM, "dave")] == st.log + [UserAddArgs("dave"), AddUserArgs(DEVTEAM, "dave")];
  }

  /** On devteam, `sync` against [carol, dave] is `remove_user("bob")` followed by `create_os_user("dave", devteam)`. */
  lemma DevteamSyncSteps(mode: ArgvMode)
    ensures Synced(DevteamHost(), DEVTEAM, false, ["carol", "dave"], mode) ==
      CreatedAndAdded(MemberRemoved(DevteamHost(), "bob", mode), "dave", DEVTEAM, false, mode)
  {
    var snapshot := DevteamSnapshot();
    DevteamStale(mode);
    DevteamMissing(MemberRemoved(DevteamHost(), "bob", mode), mode);
  }

  /** With arguments passed as given, `usermod -G "" bob` takes bob out of devteam. */
  lemma DevteamRemoveBob()
    ensures MemberRemoved(DevteamHost(), "bob", Verbatim) ==
      DevteamHost().(groups := [GroupEntry(DEVTEAM, ["carol"])], log := [RemoveUserArgs("bob")])
  {
    assert ["bob", "carol"][1..] == ["carol"] && ["carol"][1..] == [];
    assert Without(["bob", "carol"], "bob") == ["carol"];
    assert RemoveFromAll(DevteamHost().groups, "bob") == [GroupEntry(DEVTEAM, ["carol"])];
  }

  /** As written, usermod is asked for the group `''`, which does not exist, and nothing but the log changes. */
  lemma DevteamRemoveBobAsWritten()
    ensures MemberRemoved(DevteamHost(), "bob", QuoteEach) == DevteamHost().(log := [[USERMOD, "-G", "''", "bob"]])
  {
    ProgramsAreSafe();
    FlagsAreSafe();
    assert IsSafe("bob");
    assert Argv(QuoteEach, RemoveUserArgs("bob")) == [USERMOD, "-G", "''", "bob"];
    assert !GroupExists(DevteamHost().groups, "''");
  }

  /**
   * With arguments passed as given, `sync` issues `usermod -G "" bob`, then useradd for dave and
   * `usermod --append --groups devteam dave`; the group ends up with exactly carol and dave.
   */
  lemma DevteamSyncVerbatim()
    ensures var r := Synced(DevteamHost(), DEVTEAM, false, ["carol", "dave"], Verbatim);
      r.log == [RemoveUserArgs("bob"), UserAddArgs("dave"), AddUserArgs(DEVTEAM, "dave")] &&
      r.accounts == {"bob", "carol", "dave"} &&
      r.groups == [GroupEntry(DEVTEAM, ["carol", "dave"])]
  {
    DevteamSyncSteps(Verbatim);
    DevteamRemoveBob();
    DevteamAddDave(MemberRemoved(DevteamHost(), "bob", Verbatim), ["carol"], Verbatim);
    Snoc1("carol", "dave");
    Cons2(RemoveUserArgs("bob"), UserAddArgs("dave"), AddUserArgs(DEVTEAM, "dave"));
    Add3("bob", "carol", "dave");
  }

  /**
   * As written, the same `sync` issues the same three commands except that the empty group list
   * reaches usermod as the word `''`; that usermod fails, so bob stays in devteam beside carol and dave.
   */
  lemma DevteamSyncAsWritten()
    ensures var r := Synced(DevteamHost(), DEVTEAM, false, ["carol", "dave"], QuoteEach);
      r.log == [[USERMOD, "-G", "''", "bob"], UserAddArgs("dave"), AddUserArgs(DEVTEAM, "dave")] &&
      r.accounts == {"bob", "carol", "dave"} &&
      r.groups == [GroupEntry(DEVTEAM, ["bob", "carol", "dave"])]
  {
    DevteamSyncSteps(QuoteEach);
    DevteamRemoveBobAsWritten();
    DevteamAddDave(MemberRemoved(DevteamHost(), "bob", QuoteEach), ["bob", "carol"], QuoteEach);
    Snoc2("bob", "carol", "dave");
    Cons2([USERMOD, "-G", "''", "bob"], UserAddArgs("dave"), AddUserArgs(DEVTEAM, "dave"));
    Add3("bob", "carol", "dave");
  }

  lemma Snoc1<T>(a: T, b: T)
    ensures [a] + [b] == [a, b]
  {
  }

  lemma Snoc2<T>(a: T, b: T, c: T)
    ensures [a, b] + [c] == [a, b, c]
  {
  }

  lemma Cons2<T>(a: T, b: T, c: T)
    ensures [a] + [b, c] == [a, b, c]
  {
  }

  lemma Add3<T>(a: T, b: T, c: T)
    ensures {a, b} + {c} == {a, b, c}
  {
  }

  // ---------------------------------------------------------------------------------------------
  // The objects

  class OsGroup {
    const name: string
    const isSudoGroup: bool

    constructor (name: string, isSudoGroup: bool)
      ensures this.name == name && this.isSudoGroup == isSudoGroup
    {
      this.name := name;
      this.isSudoGroup := isSudoGroup;
    }

    /** `OsGroup.exists`: `grp.getgrnam` finds the group. */
    method Exists(host: Host) returns (b: bool)
      ensures b <==> GroupExists(host.groups, name)
    {
      var entries := host.GroupDatabase();
      b := FirstIndex(entries, name).Some?;
    }

    method Create(host: Host)
      modifies host
      ensures host.State() == Run(old(host.State()), [GROUPADD, name], host.argvMode).state
    {
      var _ := host.RunCommand([GROUPADD, name]);
    }

    method Delete(host: Host)
      modifies host
      ensures host.State() == Run(old(host.State()), [GROUPDEL, name], host.argvMode).state
    {
      var _ := host.RunCommand([GROUPDEL, name]);
    }

    method AddUser(host: Host, username: string)
      modifies host
      ensures host.State() == MemberAdded(old(host.State()), name, username, host.argvMode)
    {
      var _ := host.RunCommand(AddUserArgs(name, username));
    }

    method RemoveUser(host: Host, username: string)
      modifies host
      ensures host.State() == MemberRemoved(old(host.State()), username, host.argvMode)
    {
      var _ := host.RunCommand(RemoveUserArgs(username));
    }

    /** `OsGroup.members`: scan the group database and take the members of the first entry with this name. */
    method Members(host: Host) returns (users: seq<string>)
      ensures users == MembersOf(host.groups, name)
    {
      var entries := host.GroupDatabase();
      users := [];
      var i := 0;
      while i < |entries|
        invariant 0 <= i <= |entries|
        invariant forall j :: 0 <= j < i ==> entries[j].name != name
        invariant users == []
      {
        if entries[i].name == name {
          users := users + entries[i].members;
          break;
        }
        i := i + 1;
      }
    }

    /** `OsGroup.sync(iam_users)`: one snapshot of the members, the removals, then the additions. */
    method Sync(host: Host, iamUsers: seq<string>)
      modifies host
      ensures host.State() == Synced(old(host.State()), name, isSudoGroup, iamUsers, host.argvMode)
    {
      var osUsers := Members(host);
      RemoveStale(host, osUsers, iamUsers);
      AddMissing(host, osUsers, iamUsers);
    }

    /** The first loop of `sync`: `remove_user` for each snapshot member missing from `iamUsers`. */
    method RemoveStale(host: Host, osUsers: seq<string>, iamUsers: seq<string>)
      modifies host
      ensures host.State() == StaleRemoved(old(host.State()), osUsers, iamUsers, host.argvMode)
    {
      var i := 0;
      while i < |osUsers|
        invariant 0 <= i <= |osUsers|
        invariant host.State() == StaleRemoved(old(host.State()), osUsers[..i], iamUsers, host.argvMode)
      {
        StaleRemovedStep(old(host.State()), osUsers, i, iamUsers, host.argvMode);
        if osUsers[i] !in iamUsers {
          RemoveUser(host, osUsers[i]);
        }
        i := i + 1;
      }
      assert osUsers[..i] == osUsers;
    }

    /** The second loop of `sync`: `create_os_user` for each name of `iamUsers` missing from the snapshot. */
    method AddMissing(host: Host, osUsers: seq<string>, iamUsers: seq<string>)
      modifies host
      ensures host.State() == MissingAdded(old(host.State()), name, isSudoGroup, iamUsers, osUsers, host.argvMode)
    {
      var j := 0;
      while j < |iamUsers|
        invariant 0 <= j <= |iamUsers|
        invariant host.State() == MissingAdded(old(host.State()), name, isSudoGroup, iamUsers[..j], osUsers, host.argvMode)
      {
        ghost var before := host.State();
        if iamUsers[j] !in osUsers {
          CreateOsUser(host, iamUsers[j], this);
        }
        AddedOneMore(old(host.State()), before, host.State(), name, isSudoGroup, iamUsers, j, osUsers, host.argvMode);
        j := j + 1;
      }
      assert iamUsers[..j] == iamUsers;
    }
  }

  /** `create_os_user(username, os_group)`. */
  method CreateOsUser(host: Host, username: string, group: OsGroup)
    modifies host
    ensures host.State() == CreatedAndAdded(old(host.State()), username, group.name, group.isSudoGroup, host.argvMode)
  {
    var user := new OsUser(username);
    var present := user.Exists(host);
    if !present {
      user.Create(host);
    }
    group.AddUser(host, username);
    if group.isSudoGroup {
      user.GrantSudoAccess(host);
    }
  }
}

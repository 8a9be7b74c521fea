# ec2-ssh: a Dafny model of the host-side account and sshd logic

`ec2-ssh` keeps the local accounts of an EC2 instance in line with IAM. A group's member list
is reconciled against a list of IAM user names: stale members are removed, and missing users
are created, added to the group and, for a sudoers group, given a sudoers fragment. The public
keys that sshd accepts for a user are read from IAM. sshd is pointed at a helper script that
prints those keys, through the `AuthorizedKeysCommand` and `AuthorizedKeysCommandUser`
directives of `/etc/ssh/sshd_config`.

This project models `ec2_ssh/auth.py` and the Python 2 helpers of `ec2_ssh/utils.py` that it
uses. The modules are:

- `Wrappers`: `Option` and `Result`.
- `Utils`: `b`, `shlex_quote` and the argument vector that `run_command` builds. A POSIX
  shell-word reader (`ShellWord`) is the partner of `shlex_quote`.
- `PyText`: the Python string operations the core relies on: `strip`, `rstrip(chars)`,
  `readlines()` and `writelines()`.
- `Posix`: the host as a value. `HostState` holds the accounts, the group database in
  `/etc/group` order, a flat file system (path to node with content, mode and owner), the log of
  commands run, and the umask.
  - `Exec` gives the effect of the five shadow-utils commands that the core runs (`useradd`,
    `userdel`, `usermod`, `groupadd`, `groupdel`) when they receive a given argument vector.
  - `Run` is `run_command`: it records the argument vector in the host's command log and executes
    it. The source writes no such log; the `log` field is the model's record of which commands ran.
  - The class `Posix.Host` holds that state in fields. Each primitive (run a command, `makedirs`,
    `chown`, `chmod`, write, `copyfile`, `remove`, existence checks) is a method whose
    postcondition gives the new state as a function of the old one.
- `Iam`: the IAM directory as pages of `(SSHPublicKeyId, Status)` records plus a map from
  `(user, id)` to key body. It defines the active-key filter and the body lookup.
- `OsUsers`: username normalisation (`re.sub(r'@.*', '', username, re.I)`), the sudoers fragment,
  and the class `OsUser` with its key cache.
- `OsGroups`: the class `OsGroup`, `create_os_user`, and `sync` as two loops over one membership
  snapshot.
- `SshdConfig`: the directive patterns, the line-level upsert of `append_or_replace_ssh_config`
  (as written and corrected), and what the next `readlines()` of the written file returns.
- `SshdSetup`: the helper-script install, and the file-level `append_or_replace_ssh_config` and
  `configure_ssh_authorized_keys_command` on the host.

Two switches choose between the code as written and the corrected code:

- `Posix.ArgvMode`:
  - `QuoteEach` is what `run_command` does: it quotes every argument with `shlex_quote`, then hands
    the list to `Popen` without a shell, so the quotes reach the program literally.
  - `Verbatim` passes the arguments unchanged.
- `SshdConfig.Revision`:
  - `AsWritten` is the upsert of the source.
  - `Corrected` is its evident intent.

Every lemma below that is stated for one switch setting says so.

## Model

| member | source | states |
|---|---|---|
| Utils.B | ec2_ssh/utils.py:25-26 | under Python 2, `b` returns its argument unchanged |
| Utils.ShlexQuote | ec2_ssh/utils.py:28-36 | the empty string becomes `''`; a non-empty string of safe characters is returned as is; any other string is wrapped in single quotes; the result is never empty |
| Utils.EscapeQuotes | ec2_ssh/utils.py:36 | the `'` replacement leaves a string without `'` unchanged |
| Utils.QuoteArgs | ec2_ssh/utils.py:62-63 | the argument vector has one entry per argument, and entry i is `shlex_quote` of argument i |
| Utils.LexPlainSafe | ec2_ssh/utils.py:28 | a shell reads a word of safe characters back as itself |
| Utils.LexSingleEscaped | ec2_ssh/utils.py:36 | inside single quotes, each `'"'"'` is read back as one `'` and every other character as itself |
| Utils.ShlexQuoteRoundTrip | ec2_ssh/utils.py:31-36 | a POSIX shell reads `shlex_quote(s)` back as exactly one word equal to `s`, for every `s` |
| Utils.QuoteArgsRoundTrip | ec2_ssh/utils.py:62-63 | a shell reads every quoted entry of the argument vector back as the original argument |
| PyText.LStrip | ec2_ssh/auth.py:53 | the result is a suffix of the input; only whitespace was removed; it does not start with whitespace |
| PyText.RStrip | ec2_ssh/auth.py:53 | the result is a prefix of the input; only whitespace was removed; it does not end with whitespace |
| PyText.StripMiddle | ec2_ssh/auth.py:53 | `strip` of whitespace around a text that starts and ends with non-whitespace gives back that text |
| PyText.RStripChars | ec2_ssh/auth.py:77 | `rstrip(b('\r\n'))` removes a suffix made only of `\r` and `\n`, and the result does not end with either |
| PyText.LineLength | ec2_ssh/auth.py:62 | `readlines` cuts the first line just after the first `\n`, or at the end of the text |
| PyText.ReadLinesRoundTrip | ec2_ssh/auth.py:61-62 | writing back the lines that `readlines` returned gives the original text |
| PyText.ReadLinesWellFormed | ec2_ssh/auth.py:61-62 | every line from `readlines` is non-empty, has `\n` only at its end, and every line except the last ends with `\n` |
| PyText.JoinReadLines | ec2_ssh/auth.py:82-83 | `readlines` after `writelines` gives back well-formed lines exactly |
| PyText.NotWellFormedNotReread | ec2_ssh/auth.py:82-83 | lines that are not well formed never come back unchanged from `writelines` followed by `readlines` |
| PyText.JoinLinesAppend | ec2_ssh/auth.py:83 | `writelines` of two lists in turn writes their concatenation |
| Posix.Argv | ec2_ssh/utils.py:62-63 | under `QuoteEach`, entry i of the argument vector is `shlex_quote` of argument i; under `Verbatim` the vector is the arguments |
| Posix.FirstIndex | ec2_ssh/auth.py:155-158 | the index of the first group entry with the name, or `None` exactly when no entry has it |
| Posix.Without | ec2_ssh/auth.py:149 | `usermod -G` drops exactly that user from a member list |
| Posix.RemoveFromAll | ec2_ssh/auth.py:149 | `usermod -G ""` removes the user from every group and changes nothing else in the group database |
| Posix.AddToGroup | ec2_ssh/auth.py:145 | `usermod --append --groups g u` changes only the entries named `g` |
| Posix.MembersAfterRemoveFromAll | ec2_ssh/auth.py:149 | after `usermod -G ""`, a group's members are the old members except that user |
| Posix.MembersAfterAddToGroup | ec2_ssh/auth.py:145 | after `usermod --append --groups g u`, the members of an existing `g` are the old ones plus `u`, and no group loses a member |
| Posix.Exec | ec2_ssh/utils.py:77-83 | a command changes only the account and group databases, and a failing command changes nothing |
| Posix.RemoveNamed | ec2_ssh/auth.py:141 | `groupdel` removes exactly the entries with that name |
| Posix.Run | ec2_ssh/utils.py:52-84 | `run_command` records the argument vector it built in the host's command log, leaves the files alone, and on a non-zero return code changes nothing else |
| Posix.ExecKeepsMembers | ec2_ssh/auth.py:190-195 | `groupadd`, `useradd` and `usermod --append` never remove a member from a group |
| Posix.Host.RunCommand | ec2_ssh/utils.py:52-84 | the host's new state and the return code are those of `Run` |
| Posix.Host.AccountExists | ec2_ssh/auth.py:232-238 | `pwd.getpwnam` succeeds exactly for an existing account |
| Posix.Host.GroupDatabase | ec2_ssh/auth.py:155 | `grp.getgrall` returns the group database in order |
| Posix.Host.PathExists | ec2_ssh/auth.py:245 | `os.path.exists` holds exactly for a path in the file system |
| Posix.Host.ReadFile | ec2_ssh/auth.py:61-62 | reading gives the content of a regular file and nothing otherwise |
| Posix.Host.MakeDirs | ec2_ssh/auth.py:42 | `os.makedirs` creates the directory with the mode masked by the umask |
| Posix.Host.ChangeOwner | ec2_ssh/auth.py:43 | `os.chown` sets the owner of that path only |
| Posix.Host.ChangeMode | ec2_ssh/auth.py:254 | `os.chmod` sets the mode of that path only |
| Posix.Host.Write | ec2_ssh/auth.py:252-253 | writing sets the content; a new file gets the umask-masked default mode and owner root |
| Posix.Host.Copy | ec2_ssh/auth.py:85 | `shutil.copyfile` gives the destination the source's content and keeps an existing destination's mode and owner |
| Posix.Host.Remove | ec2_ssh/auth.py:264 | `os.remove` deletes that path only |
| Iam.Listing | ec2_ssh/auth.py:219-222 | the listed records are exactly the records of all pages |
| Iam.FilterActive | ec2_ssh/auth.py:223 | a record is kept exactly when it is listed and its `Status` is `Active` |
| Iam.IdsOf | ec2_ssh/auth.py:224 | the ids of the records, in order |
| Iam.FilterActiveAppend | ec2_ssh/auth.py:221-224 | filtering keeps listing order across page boundaries |
| Iam.ListingAppend | ec2_ssh/auth.py:221-222 | one more page adds its records at the end of the listing |
| Iam.ActiveIdsIsFilteredListing | ec2_ssh/auth.py:216-226 | the key ids are the ids of the active records of the whole listing, in listing order |
| Iam.ActiveIdsMembership | ec2_ssh/auth.py:216-226 | an id is returned exactly when some page holds an active record with that id |
| Iam.ListActiveKeyIds | ec2_ssh/auth.py:219-220 | listing fails exactly when IAM does not know the user |
| Iam.KeyBodies | ec2_ssh/auth.py:206-212 | the bodies succeed exactly when every id has a body, and body i belongs to id i |
| Iam.KeyBodiesStopsAtFirstMissing | ec2_ssh/auth.py:206-212 | the first missing body ends the lookup with that error, whatever comes after |
| Iam.NoActiveKeysNoBodies | ec2_ssh/auth.py:203-226 | a user with no active key gets the empty key list |
| Iam.TwoActiveOneInactive | ec2_ssh/auth.py:203-226 | two active keys and one inactive one give the two active bodies, in listing order |
| OsUsers.SkipLine | ec2_ssh/auth.py:185 | `.*` after `@` stops just before the next `\n` |
| OsUsers.BeforeAt | ec2_ssh/auth.py:185 | the part before the first `@` contains no `@` |
| OsUsers.NormalizeWithoutAt | ec2_ssh/auth.py:185 | a username without `@` is not changed by normalisation |
| OsUsers.NormalizeOneLine | ec2_ssh/auth.py:185 | on one line, normalisation keeps exactly the part before the first `@` |
| OsUsers.NormalizeIdempotent | ec2_ssh/auth.py:185 | a normalised one-line name has no `@`, and normalising it again changes nothing |
| OsUsers.EmailAndLocalPartAgree | ec2_ssh/auth.py:185 | `local@domain` and `local` name the same account and the same sudoers fragment |
| OsUsers.GrantSudo | ec2_ssh/auth.py:240-254 | after the grant the fragment exists; an existing fragment is left as it was; a new one holds `<u> ALL=(ALL) NOPASSWD:ALL`, mode 0o440, owner root |
| OsUsers.RevokeSudo | ec2_ssh/auth.py:256-264 | after the revoke the fragment is gone and nothing else changed |
| OsUsers.GrantIdempotent | ec2_ssh/auth.py:245-248 | granting twice is granting once |
| OsUsers.GrantThenRevoke | ec2_ssh/auth.py:240-264 | grant then revoke leaves no fragment and nothing else changed; a second revoke changes nothing |
| OsUsers.ProgramsAreSafe | ec2_ssh/auth.py:190-191 | the program paths pass through `shlex_quote` unchanged |
| OsUsers.FlagsAreSafe | ec2_ssh/auth.py:191-194 | the option words and the default shell pass through `shlex_quote` unchanged |
| OsUsers.CreateDeleteAccount | ec2_ssh/auth.py:228-230 | for a name that quoting leaves alone, `create` adds exactly that account; `delete` removes the account from the accounts and all groups and removes its fragment |
| OsUsers.OsUser.constructor | ec2_ssh/auth.py:184-187 | the stored username is the normalised one and the key cache is empty |
| OsUsers.OsUser.Create | ec2_ssh/auth.py:190-195 | the host runs `useradd --shell /bin/bash --create-home <name>` |
| OsUsers.OsUser.Exists | ec2_ssh/auth.py:232-238 | true exactly when the normalised name is an account |
| OsUsers.OsUser.Delete | ec2_ssh/auth.py:228-230 | the host runs `userdel <name>` and then revokes sudo |
| OsUsers.OsUser.GrantSudoAccess | ec2_ssh/auth.py:240-254 | the host's new state is `GrantSudo` of the old one |
| OsUsers.OsUser.RevokeSudoAccess | ec2_ssh/auth.py:256-264 | the host's new state is `RevokeSudo` of the old one |
| OsUsers.OsUser.GetSshPublicKeyIds | ec2_ssh/auth.py:216-226 | the append loops return the active key ids in listing order |
| OsUsers.OsUser.GetSshPublicKeys | ec2_ssh/auth.py:203-214 | the append loop returns one body per active id, in order, or the first lookup error |
| OsUsers.OsUser.SshPublicKeys | ec2_ssh/auth.py:197-201 | an empty or missing cache is refetched and a successful fetch is stored; a non-empty cache is returned as it is |
| OsUsers.ReadKeysTwice | ec2_ssh/auth.py:197-201 | reading twice returns the same keys when the first read found some, and refetches from the current directory when it found none |
| OsGroups.CreatedAndAddedEffects | ec2_ssh/auth.py:106-119 | `create_os_user` runs `useradd` only when the normalised name is not an account, always adds the raw name to the group, and gives a sudoers fragment exactly for a sudoers group |
| OsGroups.Outside | ec2_ssh/auth.py:168-170 | the names of one list that are not in the other |
| OsGroups.StaleRemovedStep | ec2_ssh/auth.py:168-170 | one step of the removal loop removes the user exactly when they are not in the desired list |
| OsGroups.MissingAddedStep | ec2_ssh/auth.py:173-175 | one step of the addition loop creates and adds the user exactly when they are not in the snapshot |
| OsGroups.RemovalCommands | ec2_ssh/auth.py:149 | one `usermod -G "" <u>` command per user, in order |
| OsGroups.StaleRemovedLog | ec2_ssh/auth.py:165-170 | the removal loop logs exactly one `remove_user` per snapshot member not in the desired list, in snapshot order, and touches no file |
| OsGroups.MissingAddedLog | ec2_ssh/auth.py:172-175 | the addition loop only appends to the log: a `create_os_user` block for each desired name not in the snapshot, in order |
| OsGroups.SyncLog | ec2_ssh/auth.py:165-175 | `sync` issues all its removals first, exactly for the stale snapshot members |
| OsGroups.SyncAdditionsLog | ec2_ssh/auth.py:165-175 | after the removals, `sync` logs exactly the additions for the desired names missing from the snapshot |
| OsGroups.ConvergedSyncIsNoOp | ec2_ssh/auth.py:161-175 | when the group already has exactly the desired members, `sync` runs no command and changes nothing |
| OsGroups.NothingStale | ec2_ssh/auth.py:168-170 | the removal loop does nothing when every snapshot member is desired |
| OsGroups.NothingMissing | ec2_ssh/auth.py:173-175 | the addition loop does nothing when every desired name is in the snapshot |
| OsGroups.MemberRemovedVerbatim | ec2_ssh/auth.py:147-149 | with arguments passed as given, `remove_user` drops that user from the group and keeps the other members |
| OsGroups.MemberAddedVerbatim | ec2_ssh/auth.py:143-145 | with arguments passed as given, `add_user` adds the user to that group |
| OsGroups.CreatedAndAddedVerbatim | ec2_ssh/auth.py:106-119 | with arguments passed as given, `create_os_user` of a normalised name makes it a member and keeps the others |
| OsGroups.StaleRemovedMembers | ec2_ssh/auth.py:165-170 | with arguments passed as given, the removal loop leaves exactly the old members that are not stale |
| OsGroups.MissingAddedMembers | ec2_ssh/auth.py:172-175 | with arguments passed as given, the addition loop adds exactly the desired names missing from the snapshot |
| OsGroups.SyncConverges | ec2_ssh/auth.py:161-175 | with arguments passed as given, the group ends up with exactly the desired members |
| OsGroups.SyncTwiceIsSyncOnce | ec2_ssh/auth.py:161-175 | with arguments passed as given, a second `sync` changes nothing |
| OsGroups.StaleRemovedAsWrittenChangesNoGroup | ec2_ssh/auth.py:147-149 | as written, no removal changes the accounts or the group database when there is no group named `''` |
| OsGroups.CreatedAndAddedKeepsMembers | ec2_ssh/auth.py:106-119 | `create_os_user` never removes a member from any group |
| OsGroups.MissingAddedKeepsMembers | ec2_ssh/auth.py:172-175 | the addition loop never removes a member from any group |
| OsGroups.SyncAsWrittenKeepsStaleMembers | ec2_ssh/auth.py:161-175 | as written, `sync` removes no member from the group, stale or not |
| OsGroups.DevteamSyncSteps | ec2_ssh/auth.py:161-175 | on the group devteam with members bob and carol and the directory list [carol, dave], `sync` is `remove_user("bob")` followed by `create_os_user("dave", devteam)` |
| OsGroups.DevteamSyncVerbatim | ec2_ssh/auth.py:161-175 | with arguments passed as given, that `sync` logs `usermod -G "" bob`, useradd for dave and `usermod --append --groups devteam dave`, in that order, and devteam ends with exactly carol and dave |
| OsGroups.DevteamSyncAsWritten | ec2_ssh/auth.py:147-175 | as written, the same `sync` logs the same commands except that usermod receives the word `''`; that usermod fails, so devteam ends with bob, carol and dave |
| OsGroups.OsGroup.constructor | ec2_ssh/auth.py:124-126 | the group keeps its name and sudoers flag |
| OsGroups.OsGroup.Exists | ec2_ssh/auth.py:128-135 | true exactly when a group of that name exists |
| OsGroups.OsGroup.Create | ec2_ssh/auth.py:137-138 | the host runs `groupadd <name>` |
| OsGroups.OsGroup.Delete | ec2_ssh/auth.py:140-141 | the host runs `groupdel <name>` |
| OsGroups.OsGroup.AddUser | ec2_ssh/auth.py:143-145 | the host runs `usermod --append --groups <name> <u>` |
| OsGroups.OsGroup.RemoveUser | ec2_ssh/auth.py:147-149 | the host runs `usermod -G "" <u>` |
| OsGroups.OsGroup.Members | ec2_ssh/auth.py:151-159 | the loop returns the members of the first entry with the group's name, or the empty list |
| OsGroups.OsGroup.Sync | ec2_ssh/auth.py:161-175 | the host's new state is the removal loop and then the addition loop, both over one snapshot of the members |
| OsGroups.OsGroup.RemoveStale | ec2_ssh/auth.py:168-170 | the loop's new state is `StaleRemoved` of the old one |
| OsGroups.OsGroup.AddMissing | ec2_ssh/auth.py:173-175 | the loop's new state is `MissingAdded` of the old one |
| OsGroups.CreateOsUser | ec2_ssh/auth.py:106-119 | the host's new state is `CreatedAndAdded` of the old one |
| SshdConfig.MatchesTerminated | ec2_ssh/auth.py:66 | a final `\n` does not change whether `^kw .*$` is found in a line |
| SshdConfig.ConfigureDirectives | ec2_ssh/auth.py:95-96 | each directive line matches its own pattern, and neither pattern matches the other directive's lines |
| SshdConfig.KeywordsDiffer | ec2_ssh/auth.py:19-20 | `AuthorizedKeysCommand .*` never matches an `AuthorizedKeysCommandUser` line, and the other way round |
| SshdConfig.FirstMatch | ec2_ssh/auth.py:64-69 | the index of the first matching line, or `None` exactly when no line matches |
| SshdConfig.AppendOrReplaceLines | ec2_ssh/auth.py:64-79 | the loop and branches return the upsert of the chosen revision |
| SshdConfig.UpsertShape | ec2_ssh/auth.py:64-79 | as written: with no match, IndexError exactly for an empty file or empty last line; otherwise the old lines stay as a prefix, one separator is inserted exactly when the last line ends in neither `\r` nor `\n` (so the list grows by 2, else by 1), and the directive plus separator comes last; with a match, the length is unchanged, only the first matching line changes (later matches are untouched), and it becomes the directive plus separator when it differs once stripped, the bare directive otherwise |
| SshdConfig.UpsertFixedShape | ec2_ssh/auth.py:64-79 | corrected: with no match, the old lines stay as a prefix, a separator is inserted exactly when the file is non-empty and does not end with `\n`, and the directive plus separator comes last; with a match, only the first matching line may change, and it is kept when it already says the directive |
| SshdConfig.TerminatedJoin | ec2_ssh/auth.py:73-75 | writing a separator after an unterminated last line is the same as terminating that line |
| SshdConfig.RereadReplace | ec2_ssh/auth.py:76-79 | a line replaced by a terminated directive is read back exactly |
| SshdConfig.RereadAppend | ec2_ssh/auth.py:72-75 | an append with the corrected separator reads back as the old lines, terminated, plus the directive |
| SshdConfig.TerminatedMatches | ec2_ssh/auth.py:66 | terminating the last line changes neither its match nor its stripped form |
| SshdConfig.ReplacedSettles | ec2_ssh/auth.py:76-79 | replacing the first match with the directive plus separator leaves the file with that directive as its first match |
| SshdConfig.AppendedSettles | ec2_ssh/auth.py:72-75 | appending to a file with no match leaves the directive as its first match |
| SshdConfig.AppendedFirstMatch | ec2_ssh/auth.py:64-75 | the appended directive is the first matching line |
| SshdConfig.FixedSettles | ec2_ssh/auth.py:59-86 | corrected: after the upsert the file's first match is the directive |
| SshdConfig.FixedKeepsSettled | ec2_ssh/auth.py:95-101 | corrected: the second upsert keeps the first directive in place |
| SshdConfig.AppendKeepsSettled | ec2_ssh/auth.py:72-75 | appending a line keeps a settled directive settled |
| SshdConfig.ReplaceKeepsSettled | ec2_ssh/auth.py:76-79 | replacing a line of another directive keeps a settled directive settled |
| SshdConfig.SettledTextUnchanged | ec2_ssh/auth.py:59-86 | corrected: a file that already says the directive is written back byte for byte |
| SshdConfig.FixedUpsertIdempotent | ec2_ssh/auth.py:59-86 | corrected: a second upsert of the same directive changes nothing |
| SshdConfig.FixedConfigureIdempotent | ec2_ssh/auth.py:89-101 | corrected: configuring never fails on the text, and configuring twice is configuring once |
| SshdConfig.LastLineEnd | ec2_ssh/auth.py:73 | `lines[-1][-1]` is the last character of a non-empty file |
| SshdConfig.JoinedEnd | ec2_ssh/auth.py:73 | the written text ends with the last character of the last line |
| SshdConfig.Fused | ec2_ssh/auth.py:79 | a line without `\n` followed by a well-formed one reads as a single line |
| SshdConfig.EqualLineFuses | ec2_ssh/auth.py:76-79 | as written: when the first match already says the directive, the next line is glued onto it when the file is read again |
| SshdConfig.RereadGlued | ec2_ssh/auth.py:73-75 | a line appended after an unterminated last line is read back glued onto it |
| SshdConfig.CarriageReturnGlues | ec2_ssh/auth.py:73-75 | as written: after a last line ending in `\r`, the directive is glued onto that line and is not a line of its own |
| SshdConfig.EmptyConfig | ec2_ssh/auth.py:73 | as written, an empty file raises IndexError; corrected, it gets the directive |
| SshdConfig.MatchesExtended | ec2_ssh/auth.py:66 | a matching line still matches with a well-formed line glued on |
| SshdConfig.RereadSnoc | ec2_ssh/auth.py:75 | a line appended after terminated lines is read back exactly |
| SshdConfig.UpsertAppendsAsWritten | ec2_ssh/auth.py:72-75 | as written, with no match and a terminated last line, exactly the directive plus separator is appended |
| SshdConfig.AppendedAsWritten | ec2_ssh/auth.py:59-86 | as written, on a terminated file without a match, the text gains the directive plus separator and reads back as one more line |
| SshdConfig.NoMatchSnoc | ec2_ssh/auth.py:64-69 | appending a non-matching line keeps "no match" |
| SshdConfig.FirstUpsertBothAsWritten | ec2_ssh/auth.py:95-101 | as written, configuring a terminated file without either directive appends both, in order |
| SshdConfig.SecondAppended | ec2_ssh/auth.py:100-101 | as written, the user directive is appended after the command directive |
| SshdConfig.SecondUpsertBothFuses | ec2_ssh/auth.py:95-101 | as written, configuring a second time glues the user directive onto the command line and appends it again |
| SshdConfig.FirstUpsertFuses | ec2_ssh/auth.py:76-79 | as written, the second command upsert writes the bare directive, which fuses with the next line |
| SshdConfig.FusedLines | ec2_ssh/auth.py:76-79 | as written, an equal first match followed by a line reads back as one line |
| SshdConfig.FusedReappended | ec2_ssh/auth.py:72-75 | as written, once fused, the user directive no longer matches, so it is appended again |
| SshdConfig.FirstConfigureAsWritten | ec2_ssh/auth.py:89-101 | as written, the first configure of a plain terminated file appends the two directives |
| SshdConfig.SecondConfigureFuses | ec2_ssh/auth.py:89-101 | as written, a second configure leaves the command line glued to the user line and the user line duplicated |
| SshdSetup.ScriptText | ec2_ssh/auth.py:23-29 | the script is the template with the command path filled in, starting with `#!` |
| SshdSetup.ScriptIsStrippedTemplate | ec2_ssh/auth.py:49-53 | the written script is the formatted template with its surrounding whitespace stripped |
| SshdSetup.PathsDistinct | ec2_ssh/auth.py:16-18 | the config file, the script directory and the script are different paths |
| SshdSetup.TempNameDistinct | ec2_ssh/auth.py:81 | a `/tmp` name is none of those paths |
| SshdSetup.ScriptInstalledEffect | ec2_ssh/auth.py:40-44 | the directory exists, owned by root, mode 0o751, whether or not it existed; nothing but files changes |
| SshdSetup.ScriptFileEffect | ec2_ssh/auth.py:46-56 | an existing script is untouched; otherwise it is the stripped script, owned by root, mode 0o751 |
| SshdSetup.ScriptInstalledKeeps | ec2_ssh/auth.py:32-56 | no other path changes |
| SshdSetup.ScriptInstalledIdempotent | ec2_ssh/auth.py:32-56 | installing twice is installing once |
| SshdSetup.CreateAuthorizedKeysCommandScript | ec2_ssh/auth.py:32-56 | the host's new state is `ScriptInstalled` of the old one |
| SshdSetup.UpsertConfigEffect | ec2_ssh/auth.py:59-86 | an unreadable config is an error with no change; an upsert error leaves the host unchanged; otherwise the config gets the new text and the temp file is gone |
| SshdSetup.UpsertConfigKeeps | ec2_ssh/auth.py:81-86 | no path but the config file ends up changed |
| SshdSetup.AppendOrReplaceSshConfig | ec2_ssh/auth.py:59-86 | the host's new state and the error are those of `UpsertConfig` |
| SshdSetup.ConfiguredEffect | ec2_ssh/auth.py:89-101 | configure installs the script, then applies both upserts in order; a failure of the second keeps the first's write |
| SshdSetup.RewrittenTwice | ec2_ssh/auth.py:85 | two rewrites of the config are the last one |
| SshdSetup.ConfigureSshAuthorizedKeysCommand | ec2_ssh/auth.py:89-101 | the host's new state and the error are those of `Configured` |
| SshdSetup.FixedConfiguredIdempotent | ec2_ssh/auth.py:89-101 | corrected: a second configure of the host succeeds and changes nothing |
| SshdSetup.ConfiguredTwiceFuses | ec2_ssh/auth.py:89-101 | as written: on a plain host, a second configure succeeds but leaves the two directives on one line, with the user directive repeated |
| SshdSetup.ConfiguredRewrites | ec2_ssh/auth.py:89-101 | when the text upserts succeed, configure succeeds and the config holds exactly the new text |

## Left out

- Logging, and the stdout and stderr of commands, have no effect on the state and are not modelled.
- `subprocess.Popen` raises OSError when the program is missing or cannot be executed. The model
  has no such failure: every argument vector reaches `Posix.Exec`, which returns a status code.
- `run_command` with a string argument (`shlex.split` and `shell=True`) is not modelled: the core
  always calls it with separate arguments, so `args` is always a tuple.
- The Python 3 branch of `ec2_ssh/utils.py` (`shlex.quote`, `b` as `encode`) and its bytes-versus-str
  behaviour are not modelled. The model follows Python 2, where a `str` is a byte string.
- `Popen`, `pwd`, `grp`, `os` and `shutil` are the host primitives of `Posix.Host`. The shadow-utils
  programs themselves are given by `Posix.Exec`. That covers existence checks, name lookup,
  the group-database update of `usermod`, and the failure of an unknown group in `usermod -G`.
  - It does not cover name validation, the user-private group of `useradd`, home directories,
    comma-separated group lists, or the return codes beyond success and failure.
- The file system is flat. `os.makedirs` creates only the leaf directory, and parent directories
  are not modelled.
- `tempfile.mktemp` is a parameter: a fresh `/tmp` name that the caller supplies.
- `shutil.copyfile` is modelled as one step. The source writes a temporary file and then copies
  it, which is not atomic. The model claims no atomicity and no behaviour under concurrent runs.
- `boto3` is the `Iam.Directory` value: key-listing pages and key bodies. Network errors are not
  modelled; an unknown user and a missing key are (`NoSuchEntity`).
- `OsUser._public_key_ids` is set in the constructor and never read, so it is not modelled.
- `OsUsers.CreateDeleteAccount`: stated only for a name that `shlex_quote` leaves unchanged, or
  with arguments passed as given. A name that would be quoted reaches `useradd` with its quotes,
  which the model treats as a different account name.
- The quoting of `groupadd` and `groupdel` arguments is not proved safe. Their contracts give the
  state through `Run`, with the argument vector exactly as `run_command` builds it.
- The regular expression `^kw .*$` is modelled for the two fixed keywords only, which contain no
  metacharacters. `re.compile` of arbitrary patterns is not modelled.

## Findings

| source | as written | input that shows it | evidently intended | confidence | as-written member | corrected member |
|---|---|---|---|---|---|---|
| ec2_ssh/auth.py:149 | `remove_user` passes `""`, which `run_command` quotes to the two-character word `''`; there is no shell, so `usermod -G ''` is asked for a group named `''` and fails | a group with a member who is not in the IAM list, on a host with no group named `''`; for instance devteam with bob and carol against [carol, dave], where bob stays (OsGroups.DevteamSyncAsWritten) | the member leaves the group, and `sync` converges to the IAM list | not executed | OsGroups.SyncAsWrittenKeepsStaleMembers | OsGroups.SyncConverges |
| ec2_ssh/auth.py:77-79 | when the first matching line already says the directive, it is replaced by the directive without its line separator, so the next line is glued onto it | a second `configure_ssh_authorized_keys_command` on a file that the first run set up | a line that already says the directive is kept unchanged, so configuring twice is configuring once | not executed | SshdSetup.ConfiguredTwiceFuses | SshdSetup.FixedConfiguredIdempotent |
| ec2_ssh/auth.py:73-75 | a last line ending in `\r` gets no separator, so the directive is glued onto it and sshd never sees it | a config whose last line is `PermitRootLogin no\r`, with neither directive present | a separator unless the file ends with `\n` | not executed | SshdConfig.CarriageReturnGlues | SshdConfig.FixedSettles |
| ec2_ssh/auth.py:73 | `lines[-1][-1]` on an empty `sshd_config` raises IndexError | an empty `/etc/ssh/sshd_config` | an empty file gets the directive | not executed | SshdConfig.EmptyConfig | SshdConfig.FixedConfigureIdempotent |

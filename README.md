# gitid: SSH config update and current-identity extraction, in Dafny

gitid keeps several SSH identities (a key pair plus a `Host` alias in
`~/.ssh/config`) so that each repository can push with its own credentials.
Everything it does sits in the `CLI` class of `src/classes/cli.ts`. Two
parts of that class can be stated exactly, and this project models them.

* **`new <alias>`** (`newCommand`, `addHostToExistingConfig`,
  `createNewConfigFile`). First it runs `ssh-keygen`. A failure there is
  reported and swallowed. Then it updates the SSH config file. If the file is
  absent, it is written with a five-line `Host` block. If the alias occurs
  *anywhere* in the file (`indexOf(alias) > -1`), the file is left alone and
  a duplicate is reported. Otherwise the block is appended.
  `ssh_config.dfy` models the file as the class `ConfigFile` with fields
  `fileExists` and `contents`. Each method states its new state. The pure
  function `AfterNew` specifies that new state, and lemmas about it prove
  the following:
  - the file always exists afterwards and mentions the alias;
  - the update is append-only;
  - running `new` twice with the same alias gives the same file as running it once;
  - any alias that is a substring of an alias already added is refused;
  - appending to a file that ends with a line feed adds exactly the five block lines.
* **`curentIdentity`**. It trims the output of
  `git rev-parse --is-inside-work-tree` and compares it with `true`. It then
  trims the `origin` URL, matches it against `/git@(.*):(.*)\/(.*).git/` and
  reports capture group 2. `remote_url.dfy` models the regular expression as
  a matcher for that one pattern. Among all the ways the pattern can match,
  `Exec` returns the first that a backtracking JavaScript engine would try:
  the leftmost start, and after that each greedy group as long as possible.
  For `git@H:O/R.git` the reported identity is the owner `O`, not the host
  `H`.

`text.dfy` holds the JavaScript string operations these parts rely on:
`indexOf`, and `trim` with the ECMAScript set of white-space and
line-terminator characters, both over strings of characters (see "Left
out" for UTF-16). It also splits text into lines.

Facts about the code that the model keeps:
- The code reports capture group 2, which is the owner segment of the
  remote URL, not the host.
- The test at src/classes/cli.test.ts:33-40 expects `git@test:test.git` to
  report `test`. Inside a work tree that URL reports that no identity is
  established: it has no `/`, so the regular expression does not match it
  (`RemoteWithoutSlashHasNoIdentity`). The test's mock answers every
  command with that URL, rev-parse included. Under it, `curentIdentity`
  would see a rev-parse output other than `true` and report that the
  directory is not a git repository (`CurrentIdentity`).
- The key-generation error is caught, and the config is updated anyway.
  `NewCommand`'s new state does not depend on `keygenSucceeds`.

## Model

| member | source | states |
|---|---|---|
| `Text.IndexOf` | src/classes/cli.ts:41 | `indexOf` gives -1 exactly when the alias is not a substring of the config text; otherwise it gives the first position where the alias occurs |
| `Text.Trim` | src/classes/cli.ts:73-76 | `trim()` gives an infix of its input that starts and ends with a character other than white space or a line terminator; everything it cuts off on either side is white space or a line terminator |
| `Text.TrimAround` | src/classes/cli.ts:79-83 | trimming returns an already-trimmed string unchanged when any amount of white space surrounds it (so git's `true\n` compares equal to `true`) |
| `Text.LinesAppend` | src/classes/cli.ts:54 | appending text after a trailing line feed keeps all existing lines and adds the appended text's lines after them |
| `RemoteUrl.Exec` | src/classes/cli.ts:84-86 | returns a match of the pattern when one exists, and it is the first match in backtracking order (leftmost start, then longest groups 1, 2 and 3); returns none exactly when the pattern cannot match |
| `RemoteUrl.Match` | src/classes/cli.ts:84-86 | `url.match(regex)` is null exactly when no match exists; otherwise its groups are those of the first match in backtracking order |
| `RemoteUrl.CurrentIdentity` | src/classes/cli.ts:71-104 | an identity is reported only when the trimmed rev-parse output is `true`; the identity is the non-empty group 2 of the first match of the trimmed URL. "Not a git repository" is reported exactly when rev-parse ran and its trimmed output is not `true`. "No identity" is reported exactly when both commands ran, the rev-parse output is `true`, and the URL does not match or its group 2 is empty. A command error is reported exactly when rev-parse failed, or it gave `true` and the remote lookup failed |
| `RemoteUrl.NotGitRepoIgnoresRemote` | src/classes/cli.ts:73-78 | when rev-parse succeeds and its trimmed output is not `true` (`false` inside a `.git` directory or a bare repository), the report is "not a git repository" whatever the remote URL would be. Outside any repository git exits non-zero, so rev-parse fails and the report is a command error (`CurrentIdentity`) |
| `RemoteUrl.MatchOfWellFormedUrl` | src/classes/cli.ts:84-86 | for `git@H:O/R.git` where O and R hold no `:`, R holds no `/`, and no part holds a line terminator, the groups are exactly H, O and R (O may itself hold `/`) |
| `RemoteUrl.IdentityOfWellFormedUrl` | src/classes/cli.ts:79-89 | for such a URL with a non-empty owner O, and with trailing white space on either git output, the reported identity is O |
| `RemoteUrl.TrimKeepsFree` | src/classes/cli.ts:83 | trimming never introduces a character its input did not hold |
| `RemoteUrl.RemoteWithoutSlashHasNoIdentity` | src/classes/cli.ts:84-93 | inside a work tree, a remote URL with no `/` (such as `git@test:test.git`) reports that no identity is established |
| `SshConfig.KeyBasePath` | src/classes/cli.ts:12 | the key base path starts with the home directory and ends with a slash; `KeyFileIsNotIdentityFile` gives it in full as `<home>/.ssh/` |
| `SshConfig.KeyPath` | src/classes/cli.ts:27-29 | the key path starts with the base path followed by a `/` and ends with the alias; it is never the `IdentityFile` path. For the base `<home>/.ssh/`, `KeyFileIsNotIdentityFile` gives it in full as `<home>/.ssh//gitta_<alias>` |
| `SshConfig.IdentityFilePath` | src/classes/cli.ts:51 | the `IdentityFile` path is the base path, a `_`, then the alias |
| `SshConfig.HostBlock` | src/classes/cli.ts:47-52 | the block (the same text at lines 60-65) opens with the line `Host <alias>`, so it contains the alias, and it ends with a line feed |
| `SshConfig.KeyFileIsNotIdentityFile` | src/classes/cli.ts:26-29 | with the base `~/.ssh/`, the key is written to `~/.ssh//gitta_<alias>` while the Host block names `~/.ssh/_<alias>`, and these are different paths for every home directory and alias |
| `SshConfig.HostBlockLines` | src/classes/cli.ts:47-52 | when neither the alias nor the base holds a line feed, the block is exactly the lines `Host <alias>`, `   HostName github.com`, `   User git`, `   IdentityFile <base>_<alias>` and `   IdentitiesOnly yes` |
| `SshConfig.AfterNew` | src/classes/cli.ts:14-21 | after `new`, the file exists and contains the alias. Its text is the old text, or the old text followed by the block, or (when the file was absent) the block alone. The old text is always a prefix of the new text. The file is unchanged when it already contained the alias, and when it was absent it now holds exactly the block |
| `SshConfig.NewIsIdempotent` | src/classes/cli.ts:41-48 | running `new` twice with the same alias leaves the same config as running it once |
| `SshConfig.PartOfAliasIsRefused` | src/classes/cli.ts:41-45 | once an alias is added, any substring of it (for example `work` after `work-laptop`) is refused as a duplicate and leaves the config unchanged |
| `SshConfig.AppendAddsHostLines` | src/classes/cli.ts:46-54 | when neither the alias nor the base path holds a line feed, appending to text that is empty or ends with a line feed keeps its lines and adds exactly the five lines of the block |
| `SshConfig.AppendGluesUnterminatedLine` | src/classes/cli.ts:54 | the block is appended without a separator. When the file's last line lacks a line feed (and neither the alias nor the base path holds one), the earlier lines stay as they were, `Host <alias>` is joined onto the last line, and the other four block lines follow |
| `SshConfig.CreateSSHKey` | src/classes/cli.ts:24-36 | key generation targets `<base>/gitta_<alias>`, which is never the `IdentityFile` path; a failure is reported as `KeyFailed`, not raised |
| `SshConfig.ConfigFile.NewCommand` | src/classes/cli.ts:14-22 | the new state is `AfterNew` of the old state, whether or not key generation succeeded. An absent file is created holding the block; a file that contains the alias is kept as it was and a duplicate is reported; any other file gets the block appended |
| `SshConfig.ConfigFile.AddHostToExistingConfig` | src/classes/cli.ts:38-57 | the file still exists. If the alias is a substring of the text, the text is unchanged and a duplicate is reported; otherwise the new text is the old text followed by the block |
| `SshConfig.ConfigFile.CreateNewConfigFile` | src/classes/cli.ts:59-69 | the file exists and holds exactly the block, whatever it held before |

## Left out

- The `ssh-keygen` and `git` processes run through `execSync`. Their outputs are inputs. Key generation is a success flag. A `git` command that throws is `CommandResult.Failed`, and the error it reports is the single value `CommandError`.
- The shell command line that runs `ssh-keygen` (`-C <hostname>`, and quoting of an alias that holds `"`) is not modelled. Only the key path it targets is.
- `os.homedir()` and `os.hostname()`. The key base path is a parameter, and `KeyBasePath` builds it from a home directory.
- The filesystem calls. `existsSync`, `readFileSync`, `appendFileSync` and `writeFileSync` act on the in-memory `ConfigFile`. Their own failures are not modelled: a config path that is a directory, missing permissions, a missing `~/.ssh` directory. These throw uncaught in the source.
- Console output. Each message is a value of `ConfigOutcome`, `KeyOutcome` or `Report`.
- `src/index.ts` dispatches to `createNewKey`, `printCurrentIdentity`, `listAllIdentities` and `changeIdentity`. None of these exist in the `CLI` class, so the `list` and `use` commands and the dispatch are not part of this model. The same goes for the tests in `src/classes/cli.test.ts` that call them.
- Strings are sequences of Unicode scalar values, not UTF-16 code units. `IndexOf`, `Trim` and the regular-expression matcher work on characters, so text holding characters outside the Basic Multilingual Plane or lone surrogates may give different positions or matches in JavaScript.
- Concurrent runs that race on the config file.

/**
 * The `new <alias>` command of src/classes/cli.ts: generate a key pair, then
 * add a `Host` block for the alias to the SSH config file, creating the file
 * when it is absent and leaving it alone when the alias already occurs in it.
 * The config file is the one piece of state; `ssh-keygen` is an outcome flag.
 */
module SshConfig {
  import opened Text

  /** `sshKeyBasePath`: the `.ssh` directory under the home directory, with a trailing slash. */
  function KeyBasePath(home: string): (r: string)
    ensures |r| == |home| + 6 && r[..|home|] == home && r[|r| - 1] == '/'
  {
    home + "/.ssh/"
  }

  /** The file `ssh-keygen -f` is asked to write the private key to: a file
      named `gitta_<alias>` inside the base directory, never the file the
      Host block names. */
  function KeyPath(keyBase: string, keyAlias: string): (r: string)
    ensures |r| == |keyBase| + 7 + |keyAlias|
    ensures r[..|keyBase|] == keyBase && r[|keyBase|] == '/' && r[|r| - |keyAlias|..] == keyAlias
    ensures r != IdentityFilePath(keyBase, keyAlias)
  {
    keyBase + "/gitta_" + keyAlias
  }

  /** The file the `IdentityFile` line of the Host block names: the base
      path, an underscore, then the alias. */
  function IdentityFilePath(keyBase: string, keyAlias: string): (r: string)
    ensures |r| == |keyBase| + 1 + |keyAlias|
    ensures r[..|keyBase|] == keyBase && r[|keyBase|] == '_' && r[|keyBase| + 1..] == keyAlias
  {
    keyBase + "_" + keyAlias
  }

  /** The Host block written for an alias: it opens with `Host <alias>`, so
      it contains the alias, and it closes with a line feed. */
  function HostBlock(keyAlias: string, keyBase: string): (r: string)
    ensures |r| > |keyAlias| + 6 && r[..|keyAlias| + 6] == "Host " + keyAlias + "\n"
    ensures Contains(r, keyAlias)
    ensures r[|r| - 1] == '\n'
  {
    var r := ("Host " + keyAlias + "\n")
      + "   HostName github.com\n"
      + "   User git\n"
      + ("   IdentityFile " + IdentityFilePath(keyBase, keyAlias) + "\n")
      + "   IdentitiesOnly yes\n";
    assert OccursAt(r, keyAlias, 5);
    r
  }

  /** The key pair `ssh-keygen` creates and the identity file the config
      names are different files, whatever the home directory and alias:
      under `~/.ssh/` the key is `~/.ssh//gitta_<alias>` while the config
      names `~/.ssh/_<alias>`. */
  lemma KeyFileIsNotIdentityFile(home: string, keyAlias: string)
    ensures KeyPath(KeyBasePath(home), keyAlias) == home + "/.ssh//gitta_" + keyAlias
    ensures IdentityFilePath(KeyBasePath(home), keyAlias) == home + "/.ssh/_" + keyAlias
    ensures KeyPath(KeyBasePath(home), keyAlias) != IdentityFilePath(KeyBasePath(home), keyAlias)
  {
    var base := KeyBasePath(home);
    assert KeyPath(base, keyAlias)[|base|] == '/';
    assert IdentityFilePath(base, keyAlias)[|base|] == '_';
  }

  /** Appending one more line, line feed included, to text that ends with a
      line feed adds exactly that line. */
  lemma LinesSnoc(a: string, x: string)
    requires a == [] || a[|a| - 1] == '\n'
    requires Free(x, '\n')
    ensures Lines(a + (x + "\n")) == Lines(a) + [x]
    ensures (a + (x + "\n"))[|a + (x + "\n")| - 1] == '\n'
  {
    LinesAppend(a, x + "\n");
    assert x + "\n" + [] == x + "\n";
    LinesCons(x, []);
  }

  lemma IdentityFileLineIsOneLine(keyAlias: string, keyBase: string)
    requires Free(keyAlias, '\n') && Free(keyBase, '\n')
    ensures Free("   IdentityFile " + IdentityFilePath(keyBase, keyAlias), '\n')
  {
    var l4 := "   IdentityFile " + IdentityFilePath(keyBase, keyAlias);
    forall x | 0 <= x < |l4| ensures l4[x] != '\n' {
      if 16 <= x < 16 + |keyBase| { assert l4[x] == keyBase[x - 16]; }
      if 17 + |keyBase| <= x { assert l4[x] == keyAlias[x - 17 - |keyBase|]; }
    }
  }

  /** Five lines, each with its line feed, read back as those five lines. */
  lemma LinesOfFive(l1: string, l2: string, l3: string, l4: string, l5: string)
    requires Free(l1, '\n') && Free(l2, '\n') && Free(l3, '\n') && Free(l4, '\n') && Free(l5, '\n')
    ensures var t := (l1 + "\n") + (l2 + "\n") + (l3 + "\n") + (l4 + "\n") + (l5 + "\n");
            Lines(t) == [l1, l2, l3, l4, l5] && t[|t| - 1] == '\n'
  {
    var a1 := l1 + "\n";
    assert a1 == [] + (l1 + "\n");
    LinesSnoc([], l1);
    var a2 := a1 + (l2 + "\n");
    LinesSnoc(a1, l2);
    var a3 := a2 + (l3 + "\n");
    LinesSnoc(a2, l3);
    var a4 := a3 + (l4 + "\n");
    LinesSnoc(a3, l4);
    LinesSnoc(a4, l5);
    assert Lines([]) == [];
    assert Lines(a1) == [l1];
    assert Lines(a2) == [l1, l2];
    assert Lines(a3) == [l1, l2, l3];
    assert Lines(a4) == [l1, l2, l3, l4];
  }

  /** No line feed in either part means no line feed in the whole. */
  lemma FreeConcat(a: string, b: string, c: char)
    requires Free(a, c) && Free(b, c)
    ensures Free(a + b, c)
  {
    forall x | 0 <= x < |a + b| ensures (a + b)[x] != c {
      if x >= |a| { assert (a + b)[x] == b[x - |a|]; }
    }
  }

  /** The three lines of the block that do not depend on the alias hold no line feed. */
  lemma FixedLinesAreFree()
    ensures Free("Host ", '\n')
    ensures Free("   HostName github.com", '\n') && Free("   User git", '\n') && Free("   IdentitiesOnly yes", '\n')
  {
  }

  lemma Regroup(p: string, b1: string, b2: string, b3: string, b4: string, b5: string)
    ensures p + (b1 + b2 + b3 + b4 + b5) == (p + b1) + b2 + b3 + b4 + b5
  {
  }

  /** The block written after `last`, regrouped line by line. */
  lemma GluedBlockText(last: string, keyAlias: string, keyBase: string)
    ensures last + HostBlock(keyAlias, keyBase)
         == (last + "Host " + keyAlias + "\n") + ("   HostName github.com" + "\n") + ("   User git" + "\n")
            + ("   IdentityFile " + IdentityFilePath(keyBase, keyAlias) + "\n") + ("   IdentitiesOnly yes" + "\n")
  {
    var b1, b2, b3 := "Host " + keyAlias + "\n", "   HostName github.com" + "\n", "   User git" + "\n";
    var b4, b5 := "   IdentityFile " + IdentityFilePath(keyBase, keyAlias) + "\n", "   IdentitiesOnly yes" + "\n";
    assert "   HostName github.com\n" == b2 && "   User git\n" == b3 && "   IdentitiesOnly yes\n" == b5;
    assert HostBlock(keyAlias, keyBase) == b1 + b2 + b3 + b4 + b5;
    assert last + b1 == last + "Host " + keyAlias + "\n";
    Regroup(last, b1, b2, b3, b4, b5);
  }

  /** The block written after text `last` that holds no line feed is five
      lines, the first of them `last` followed by `Host <alias>`, as long as
      neither the alias nor the base path holds a line feed. */
  lemma GluedBlockLines(last: string, keyAlias: string, keyBase: string)
    requires Free(last, '\n') && Free(keyAlias, '\n') && Free(keyBase, '\n')
    ensures Lines(last + HostBlock(keyAlias, keyBase))
         == [last + "Host " + keyAlias, "   HostName github.com", "   User git",
             "   IdentityFile " + IdentityFilePath(keyBase, keyAlias), "   IdentitiesOnly yes"]
  {
    FixedLinesAreFree();
    FreeConcat(last, "Host ", '\n');
    FreeConcat(last + "Host ", keyAlias, '\n');
    IdentityFileLineIsOneLine(keyAlias, keyBase);
    GluedBlockText(last, keyAlias, keyBase);
    LinesOfFive(last + "Host " + keyAlias, "   HostName github.com", "   User git",
                "   IdentityFile " + IdentityFilePath(keyBase, keyAlias), "   IdentitiesOnly yes");
  }

  /** The block is five lines, the first naming the alias and the fourth the
      identity file, as long as neither the alias nor the base path holds a
      line feed. */
  lemma HostBlockLines(keyAlias: string, keyBase: string)
    requires Free(keyAlias, '\n') && Free(keyBase, '\n')
    ensures Lines(HostBlock(keyAlias, keyBase))
         == ["Host " + keyAlias, "   HostName github.com", "   User git",
             "   IdentityFile " + IdentityFilePath(keyBase, keyAlias), "   IdentitiesOnly yes"]
  {
    GluedBlockLines([], keyAlias, keyBase);
    assert [] + HostBlock(keyAlias, keyBase) == HostBlock(keyAlias, keyBase);
    assert [] + "Host " + keyAlias == "Host " + keyAlias;
  }

  /** The config file: absent, or present with its text. */
  datatype ConfigState = ConfigState(fileExists: bool, contents: string)

  /** An absent file has no text. */
  predicate WellFormed(c: ConfigState)
  {
    c.fileExists || c.contents == []
  }

  /** What `new` reports about the config file. */
  datatype ConfigOutcome =
    | ConfigCreated   // "New Host added successfully."
    | HostAdded       // "New host added successfully."
    | DuplicateHost   // "A host name already exists with the same name. ..."

  /** What `new` reports about key generation. */
  datatype KeyOutcome = KeyCreated | KeyFailed

  /** The config file after `new <keyAlias>`: created holding the block when
      absent, unchanged when `indexOf` finds the alias anywhere in it, and
      otherwise extended by the block. Whatever happened, the file exists and
      mentions the alias, and only the block is ever added to what was there. */
  function AfterNew(c: ConfigState, keyAlias: string, keyBase: string): (r: ConfigState)
    ensures r.fileExists && Contains(r.contents, keyAlias)
    ensures r.contents == c.contents || r.contents == c.contents + HostBlock(keyAlias, keyBase)
              || (!c.fileExists && r.contents == HostBlock(keyAlias, keyBase))
    ensures WellFormed(c) ==> |c.contents| <= |r.contents| && r.contents[..|c.contents|] == c.contents
    ensures c.fileExists && Contains(c.contents, keyAlias) ==> r == c
    ensures !c.fileExists ==> r.contents == HostBlock(keyAlias, keyBase)
  {
    if !c.fileExists then
      ConfigState(true, HostBlock(keyAlias, keyBase))
    else if IndexOf(c.contents, keyAlias) > -1 then
      c
    else
      ContainsSuffixPart(c.contents, HostBlock(keyAlias, keyBase), keyAlias);
      ConfigState(true, c.contents + HostBlock(keyAlias, keyBase))
  }

  /** Running `new` twice with one alias leaves the same config as running it
      once: the block names the alias, so the second run finds a duplicate. */
  lemma NewIsIdempotent(c: ConfigState, keyAlias: string, keyBase: string)
    ensures AfterNew(AfterNew(c, keyAlias, keyBase), keyAlias, keyBase) == AfterNew(c, keyAlias, keyBase)
  {
  }

  lemma {:induction false} ContainsInfix(s: string, t: string, u: string)
    requires Contains(s, t) && Contains(t, u)
    ensures Contains(s, u)
  {
    var i :| OccursAt(s, t, i);
    var j :| OccursAt(t, u, j);
    forall k | 0 <= k < |u| ensures s[i + j + k] == u[k] {
      assert s[i + j + k] == s[i..i + |t|][j + k] == t[j + k] == t[j..j + |u|][k];
    }
    assert s[i + j..i + j + |u|] == u;
    assert OccursAt(s, u, i + j);
  }

  /** The duplicate test is substring containment, not a Host-name match:
      once `new` has run for an alias, every alias that is a part of it (such
      as `work` after `work-laptop`) is refused and leaves the config unchanged. */
  lemma PartOfAliasIsRefused(c: ConfigState, prefix: string, keyAlias: string, suffix: string, keyBase: string)
    ensures var after := AfterNew(c, prefix + keyAlias + suffix, keyBase);
            AfterNew(after, keyAlias, keyBase) == after
  {
    var long := prefix + keyAlias + suffix;
    var after := AfterNew(c, long, keyBase);
    assert OccursAt(long, keyAlias, |prefix|);
    ContainsInfix(after.contents, long, keyAlias);
  }

  /** Appending to text that ends with a line feed keeps every existing line
      and adds the five lines of the block after them. */
  lemma AppendAddsHostLines(c: ConfigState, keyAlias: string, keyBase: string)
    requires c.fileExists && !Contains(c.contents, keyAlias)
    requires c.contents == [] || c.contents[|c.contents| - 1] == '\n'
    requires Free(keyAlias, '\n') && Free(keyBase, '\n')
    ensures Lines(AfterNew(c, keyAlias, keyBase).contents)
         == Lines(c.contents) + ["Host " + keyAlias, "   HostName github.com", "   User git",
                                 "   IdentityFile " + IdentityFilePath(keyBase, keyAlias), "   IdentitiesOnly yes"]
  {
    LinesAppend(c.contents, HostBlock(keyAlias, keyBase));
    HostBlockLines(keyAlias, keyBase);
  }

  /** Text whose last line has no line feed ends with that line. */
  lemma UnterminatedLastLine(prefix: string, last: string)
    requires prefix == [] || prefix[|prefix| - 1] == '\n'
    requires last != [] && Free(last, '\n')
    ensures Lines(prefix + last) == Lines(prefix) + [last]
  {
    assert FirstNewline(last) == |last|;
    LinesAppend(prefix, last);
  }

  /** The block appended to text whose last line has no line feed. */
  lemma GluedAppendLines(prefix: string, last: string, keyAlias: string, keyBase: string)
    requires prefix == [] || prefix[|prefix| - 1] == '\n'
    requires Free(last, '\n') && Free(keyAlias, '\n') && Free(keyBase, '\n')
    ensures Lines(prefix + last + HostBlock(keyAlias, keyBase))
         == Lines(prefix) + [last + "Host " + keyAlias, "   HostName github.com", "   User git",
                             "   IdentityFile " + IdentityFilePath(keyBase, keyAlias), "   IdentitiesOnly yes"]
  {
    var block := HostBlock(keyAlias, keyBase);
    assert prefix + last + block == prefix + (last + block);
    GluedBlockLines(last, keyAlias, keyBase);
    LinesAppend(prefix, last + block);
  }

  /** The block is appended with no separator: when the file's last line
      has no line feed, `Host <alias>` is glued onto that line, the earlier
      lines stay as they were, and the other four block lines follow. */
  lemma AppendGluesUnterminatedLine(c: ConfigState, prefix: string, last: string, keyAlias: string, keyBase: string)
    requires c.fileExists && !Contains(c.contents, keyAlias)
    requires c.contents == prefix + last
    requires prefix == [] || prefix[|prefix| - 1] == '\n'
    requires last != [] && Free(last, '\n')
    requires Free(keyAlias, '\n') && Free(keyBase, '\n')
    ensures Lines(c.contents) == Lines(prefix) + [last]
    ensures Lines(AfterNew(c, keyAlias, keyBase).contents)
         == Lines(prefix) + [last + "Host " + keyAlias, "   HostName github.com", "   User git",
                             "   IdentityFile " + IdentityFilePath(keyBase, keyAlias), "   IdentitiesOnly yes"]
  {
    UnterminatedLastLine(prefix, last);
    GluedAppendLines(prefix, last, keyAlias, keyBase);
  }

  /** `ssh-keygen -t ed25519 -C <hostname> -f <keyBase>/gitta_<alias>`; a
      failure is reported and swallowed. The key file is never the file the
      Host block names. */
  method CreateSSHKey(keyAlias: string, keyBase: string, keygenSucceeds: bool) returns (keyFile: string, key: KeyOutcome)
    ensures keyFile == KeyPath(keyBase, keyAlias) && keyFile != IdentityFilePath(keyBase, keyAlias)
    ensures key == if keygenSucceeds then KeyCreated else KeyFailed
  {
    keyFile := keyBase + "/gitta_" + keyAlias;
    assert keyFile[|keyBase|] != IdentityFilePath(keyBase, keyAlias)[|keyBase|];
    key := if keygenSucceeds then KeyCreated else KeyFailed;
  }

  /** The SSH config file, `~/.ssh/config`. */
  class ConfigFile {
    var fileExists: bool
    var contents: string

    ghost predicate Valid()
      reads this
    {
      WellFormed(State())
    }

    function State(): ConfigState
      reads this
    {
      ConfigState(fileExists, contents)
    }

    constructor (fileExists: bool, contents: string)
      requires fileExists || contents == []
      ensures Valid() && State() == ConfigState(fileExists, contents)
    {
      this.fileExists := fileExists;
      this.contents := contents;
    }

    /** `newCommand`: generate the key, then update the config whether or
        not key generation succeeded. */
    method NewCommand(keyAlias: string, keyBase: string, keygenSucceeds: bool) returns (key: KeyOutcome, outcome: ConfigOutcome)
      requires Valid()
      modifies this
      ensures Valid()
      ensures State() == AfterNew(old(State()), keyAlias, keyBase)
      ensures key == if keygenSucceeds then KeyCreated else KeyFailed
      ensures !old(fileExists) ==> outcome == ConfigCreated && contents == HostBlock(keyAlias, keyBase)
      ensures old(fileExists) && Contains(old(contents), keyAlias) ==> outcome == DuplicateHost && contents == old(contents)
      ensures old(fileExists) && !Contains(old(contents), keyAlias)
              ==> outcome == HostAdded && contents == old(contents) + HostBlock(keyAlias, keyBase)
    {
      var _, k := CreateSSHKey(keyAlias, keyBase, keygenSucceeds);
      key := k;
      if fileExists {
        outcome := AddHostToExistingConfig(keyAlias, keyBase);
      } else {
        CreateNewConfigFile(keyAlias, keyBase);
        outcome := ConfigCreated;
      }
    }

    /** `addHostToExistingConfig`: read the file; if `indexOf` finds the
        alias anywhere in it, report a duplicate; otherwise append the block. */
    method AddHostToExistingConfig(keyAlias: string, keyBase: string) returns (outcome: ConfigOutcome)
      requires fileExists
      modifies this
      ensures fileExists && Valid()
      ensures Contains(old(contents), keyAlias) ==> outcome == DuplicateHost && contents == old(contents)
      ensures !Contains(old(contents), keyAlias)
              ==> outcome == HostAdded && contents == old(contents) + HostBlock(keyAlias, keyBase)
    {
      var data := contents;
      if IndexOf(data, keyAlias) > -1 {
        outcome := DuplicateHost;
      } else {
        var newHost := "Host " + keyAlias + "\n"
          + "   HostName github.com\n"
          + "   User git\n"
          + "   IdentityFile " + keyBase + "_" + keyAlias + "\n"
          + "   IdentitiesOnly yes\n";
        assert newHost == HostBlock(keyAlias, keyBase);
        contents := contents + newHost;
        outcome := HostAdded;
      }
    }

    /** `createNewConfigFile`: write the block as the whole file. */
    method CreateNewConfigFile(keyAlias: string, keyBase: string)
      modifies this
      ensures fileExists && Valid() && contents == HostBlock(keyAlias, keyBase)
    {
      var newHost := "Host " + keyAlias + "\n"
        + "   HostName github.com\n"
        + "   User git\n"
        + "   IdentityFile " + keyBase + "_" + keyAlias + "\n"
        + "   IdentitiesOnly yes\n";
      fileExists := true;
      contents := newHost;
    }
  }
}

/**
 * deploy_cheetah.py: which files of the local cheetah directory count as
 * scripts, and the ssh/scp commands that copy them to the remote machine.
 * The file listing and the commands' exit codes are inputs.
 */
module DeployCheetah {
  import opened Wrappers
  import opened Text
  import opened Order
  import opened Paths

  /** The extensions that mark a script, compared in lower case. */
  const ScriptExtensions: set<string> := {".py", ".sh", ".bash", ".pl", ".rb", ".js", ".ts"}

  /**
   * One entry of the recursive listing: its path relative to the scanned
   * directory as parts, whether it is a regular file, and its contents,
   * None when the file cannot be opened.
   */
  datatype LocalEntry = LocalEntry(parts: seq<string>, isFile: bool, content: Option<string>)

  function Name(e: LocalEntry): string {
    if e.parts == [] then [] else e.parts[|e.parts| - 1]
  }

  /**
   * A regular file with a script extension, or with no extension and a `#!`
   * first line: never a directory, and never an extension-less file that
   * cannot be read.
   */
  predicate IsScript(e: LocalEntry): (r: bool)
    ensures r ==> e.isFile
    ensures r && Suffix(Name(e)) != [] ==> Lower(Suffix(Name(e))) in ScriptExtensions
    ensures r && Suffix(Name(e)) == [] ==> e.content.Some? && StartsWith(e.content.value, "#!")
    ensures e.isFile && Lower(Suffix(Name(e))) in ScriptExtensions ==> r
  {
    && e.isFile
    && (|| Lower(Suffix(Name(e))) in ScriptExtensions
        || (Suffix(Name(e)) == [] && e.content.Some? && StartsWith(e.content.value, "#!")))
  }

  /** The paths of the entries `keep` accepts, in listing order. */
  function PathsWhere(entries: seq<LocalEntry>, keep: LocalEntry -> bool): (r: seq<seq<string>>)
    ensures |r| <= |entries|
    decreases |entries|
  {
    if entries == [] then []
    else
      var last := entries[|entries| - 1];
      PathsWhere(entries[..|entries| - 1], keep) + (if keep(last) then [last.parts] else [])
  }

  /** The paths the selection loop appends, in listing order. */
  function Selected(entries: seq<LocalEntry>): seq<seq<string>> {
    PathsWhere(entries, IsScript)
  }

  /** Paths as sort keys: they are compared part by part. */
  function PathKey(p: seq<string>): seq<string> {
    p
  }

  /** `find_script_files`: nothing for a missing directory, else the selected paths, sorted. */
  method FindScriptFiles(directoryExists: bool, entries: seq<LocalEntry>) returns (files: seq<seq<string>>)
    ensures files == if directoryExists then SortAscending(Selected(entries), PathKey) else []
  {
    if !directoryExists {
      return [];
    }
    var scripts: seq<seq<string>> := [];
    for i := 0 to |entries|
      invariant scripts == Selected(entries[..i])
    {
      SelectedStep(entries, i);
      var e := entries[i];
      if e.isFile {
        var suffix := Suffix(Name(e));
        if Lower(suffix) in ScriptExtensions {
          scripts := scripts + [e.parts];
        } else if suffix == [] {
          match e.content
          case None =>
          case Some(text) =>
            if StartsWith(text, "#!") {
              scripts := scripts + [e.parts];
            }
        }
      }
    }
    assert entries[..|entries|] == entries;
    files := SortAscending(scripts, PathKey);
  }

  lemma SelectedStep(entries: seq<LocalEntry>, i: nat)
    requires i < |entries|
    ensures Selected(entries[..i + 1]) == Selected(entries[..i]) + (if IsScript(entries[i]) then [entries[i].parts] else [])
  {
    assert entries[..i + 1][..i] == entries[..i];
    assert entries[..i + 1][i] == entries[i];
  }

  /** A path is kept exactly when some accepted entry has it. */
  lemma {:induction false} PathsWhereMembers(entries: seq<LocalEntry>, keep: LocalEntry -> bool, p: seq<string>)
    ensures p in PathsWhere(entries, keep) <==> exists k :: 0 <= k < |entries| && keep(entries[k]) && entries[k].parts == p
    decreases |entries|
  {
    if entries != [] {
      var init := entries[..|entries| - 1];
      PathsWhereMembers(init, keep, p);
      if exists k :: 0 <= k < |init| && keep(init[k]) && init[k].parts == p {
        var k :| 0 <= k < |init| && keep(init[k]) && init[k].parts == p;
        assert entries[k] == init[k];
      }
      if exists k :: 0 <= k < |entries| && keep(entries[k]) && entries[k].parts == p {
        var k :| 0 <= k < |entries| && keep(entries[k]) && entries[k].parts == p;
        if k < |init| {
          assert init[k] == entries[k];
        }
      }
    }
  }

  /**
   * The result of `find_script_files` is sorted and holds exactly the paths
   * of the script entries, each as often as it was listed.
   */
  lemma FoundScripts(entries: seq<LocalEntry>, p: seq<string>)
    ensures Ascending(SortAscending(Selected(entries), PathKey), PathKey)
    ensures multiset(SortAscending(Selected(entries), PathKey)) == multiset(Selected(entries))
    ensures p in SortAscending(Selected(entries), PathKey) <==>
              exists k :: 0 <= k < |entries| && IsScript(entries[k]) && entries[k].parts == p
  {
    SortAscendingSorted(Selected(entries), PathKey);
    PathsWhereMembers(entries, IsScript, p);
    assert p in SortAscending(Selected(entries), PathKey) <==> p in multiset(Selected(entries));
  }

  /** Extensions are compared without regard to case: `RUN.SH` is a script. */
  lemma UpperCaseExtension(content: Option<string>)
    ensures IsScript(LocalEntry(["RUN.SH"], true, content))
  {
    assert Lacks("SH", '.');
    SuffixOfExtension("RUN", "SH");
    assert "RUN" + "." + "SH" == "RUN.SH";
    LowerDotSH();
  }

  lemma LowerDotSH()
    ensures Lower("." + "SH") == ".sh"
  {
    var l := Lower("." + "SH");
    assert l[0] == '.' && l[1] == 's' && l[2] == 'h';
  }

  /** A shebang makes a script only of a file without an extension. */
  lemma ShebangNeedsNoExtension(base: string, ext: string, rest: string)
    requires base != [] && base[0] != '.' && ext != [] && Lacks(ext, '.') && Lacks(base, '.')
    requires Lower("." + ext) !in ScriptExtensions
    ensures !IsScript(LocalEntry([base + "." + ext], true, Some("#!" + rest)))
    ensures IsScript(LocalEntry([base], true, Some("#!" + rest)))
  {
    SuffixOfExtension(base, ext);
    assert LastIndexOf(base, '.').None?;
    assert Lower([]) == [];
    assert ("#!" + rest)[..2] == "#!";
  }

  // ---------------------------------------------------------------------
  // scp_files
  // ---------------------------------------------------------------------

  /** The commands `scp_files` issues: `ssh host mkdir -p path` and `scp local host:target`. */
  datatype Command = RemoteMkdir(host: string, path: string) | Copy(local: seq<string>, host: string, target: string)

  /** Where a file lands: the remote root, '/', then its relative path. */
  function RemoteFilePath(remotePath: string, parts: seq<string>): string {
    remotePath + "/" + Join("/", parts)
  }

  /** The remote directory a nested file goes into: the remote root, '/', then its parent parts. */
  function ParentPath(remotePath: string, parts: seq<string>): string
    requires |parts| > 1
  {
    remotePath + "/" + Join("/", parts[..|parts| - 1])
  }

  /** The commands for one file: the mkdir of its sub-directory when it has one, and last the copy itself. */
  function FileCommands(parts: seq<string>, host: string, remotePath: string): (r: seq<Command>)
    ensures |r| == if |parts| > 1 then 2 else 1
    ensures r[|r| - 1] == Copy(parts, host, RemoteFilePath(remotePath, parts))
    ensures |parts| > 1 ==> r[0] == RemoteMkdir(host, ParentPath(remotePath, parts))
  {
    if |parts| > 1 then
      [RemoteMkdir(host, ParentPath(remotePath, parts)), Copy(parts, host, RemoteFilePath(remotePath, parts))]
    else
      [Copy(parts, host, RemoteFilePath(remotePath, parts))]
  }

  /** A nested file lands in the directory its mkdir creates, under its own name. */
  lemma LandsInParent(parts: seq<string>, remotePath: string)
    requires |parts| > 1
    ensures RemoteFilePath(remotePath, parts) == ParentPath(remotePath, parts) + "/" + parts[|parts| - 1]
  {
    var init, last := parts[..|parts| - 1], parts[|parts| - 1];
    assert parts == init + [last];
    JoinSnoc("/", init, last);
  }

  /** The commands for all files, in order: one copy per file and one mkdir per nested file. */
  function CopyPlan(files: seq<seq<string>>, host: string, remotePath: string): (r: seq<Command>)
    ensures |r| == |files| + NestedCount(files)
    decreases |files|
  {
    if files == [] then []
    else CopyPlan(files[..|files| - 1], host, remotePath) + FileCommands(files[|files| - 1], host, remotePath)
  }

  /** Every copy among `cmds` exited with 0; `outcome(i)` is the exit code of the i-th command issued. */
  predicate CopiesSucceeded(cmds: seq<Command>, outcome: nat -> int) {
    forall i :: 0 <= i < |cmds| && cmds[i].Copy? ==> outcome(i) == 0
  }

  /**
   * `scp_files`: True without a command for no files; False right after a
   * failed root mkdir; otherwise every file's commands are issued and the
   * result says whether every copy succeeded.
   */
  method ScpFiles(files: seq<seq<string>>, host: string, remotePath: string, outcome: nat -> int)
    returns (ok: bool, issued: seq<Command>)
    ensures files == [] ==> ok && issued == []
    ensures files != [] && outcome(0) != 0 ==> !ok && issued == [RemoteMkdir(host, remotePath)]
    ensures files != [] && outcome(0) == 0 ==>
              && issued == [RemoteMkdir(host, remotePath)] + CopyPlan(files, host, remotePath)
              && (ok <==> CopiesSucceeded(issued, outcome))
  {
    if files == [] {
      return true, [];
    }
    issued := [RemoteMkdir(host, remotePath)];
    if outcome(0) != 0 {
      return false, issued;
    }
    ok := true;
    for i := 0 to |files|
      invariant issued == [RemoteMkdir(host, remotePath)] + CopyPlan(files[..i], host, remotePath)
      invariant ok <==> CopiesSucceeded(issued, outcome)
    {
      assert files[..i + 1][..i] == files[..i];
      var before := issued;
      var copied;
      issued, copied := IssueFile(issued, files[i], host, remotePath, outcome);
      SucceededAfterFile(before, files[i], host, remotePath, outcome);
      assert CopyPlan(files[..i + 1], host, remotePath)
          == CopyPlan(files[..i], host, remotePath) + FileCommands(files[i], host, remotePath);
      if !copied {
        ok := false;
      }
    }
    assert files[..|files|] == files;
  }

  /**
   * One round of the loop over the files: the mkdir of the file's
   * sub-directory when it has one, then the copy, whose exit code says
   * whether the file was copied.
   */
  method IssueFile(issued: seq<Command>, parts: seq<string>, host: string, remotePath: string, outcome: nat -> int)
    returns (cmds: seq<Command>, copied: bool)
    ensures cmds == issued + FileCommands(parts, host, remotePath)
    ensures copied <==> outcome(|cmds| - 1) == 0
  {
    cmds := issued;
    var remoteFile := remotePath + "/" + Join("/", parts);
    if |parts| > 1 {
      var remoteSubdir := remotePath + "/" + Join("/", parts[..|parts| - 1]);
      cmds := cmds + [RemoteMkdir(host, remoteSubdir)];
    }
    var copyIndex := |cmds|;
    cmds := cmds + [Copy(parts, host, remoteFile)];
    copied := outcome(copyIndex) == 0;
  }

  /** A file's commands hold one copy, its last command, so only that copy's exit code counts. */
  lemma SucceededAfterFile(before: seq<Command>, parts: seq<string>, host: string, remotePath: string, outcome: nat -> int)
    ensures var cmds := before + FileCommands(parts, host, remotePath);
            CopiesSucceeded(cmds, outcome) <==> CopiesSucceeded(before, outcome) && outcome(|cmds| - 1) == 0
  {
    var b := FileCommands(parts, host, remotePath);
    var cmds := before + b;
    assert forall i :: 0 <= i < |before| ==> cmds[i] == before[i];
    assert cmds[|cmds| - 1].Copy?;
    if |parts| > 1 {
      assert !cmds[|before|].Copy?;
    }
  }

  /** The copies of a command list, in order. */
  function Copies(cmds: seq<Command>): seq<Command>
    decreases |cmds|
  {
    if cmds == [] then []
    else Copies(cmds[..|cmds| - 1]) + (if cmds[|cmds| - 1].Copy? then [cmds[|cmds| - 1]] else [])
  }

  lemma {:induction false} CopiesAppend(a: seq<Command>, b: seq<Command>)
    ensures Copies(a + b) == Copies(a) + Copies(b)
    decreases |b|
  {
    if b != [] {
      assert (a + b)[..|a + b| - 1] == a + b[..|b| - 1];
      CopiesAppend(a, b[..|b| - 1]);
    } else {
      assert a + b == a;
    }
  }

  /**
   * One copy per file, in the files' order, to the remote root joined with
   * the file's relative path: a failed copy does not stop the later ones.
   */
  lemma {:induction false} OneCopyPerFile(files: seq<seq<string>>, host: string, remotePath: string)
    ensures CopiesInOrder(Copies(CopyPlan(files, host, remotePath)), files, host, remotePath)
    decreases |files|
  {
    if files != [] {
      var init := files[..|files| - 1];
      var last := files[|files| - 1];
      OneCopyPerFile(init, host, remotePath);
      CopiesAppend(CopyPlan(init, host, remotePath), FileCommands(last, host, remotePath));
      FileCopies(last, host, remotePath);
      assert files == init + [last];
      CopiesInOrderSnoc(Copies(CopyPlan(init, host, remotePath)), init, last, host, remotePath);
    }
  }

  /** `copies` holds exactly one copy per file of `files`, in the same order. */
  predicate CopiesInOrder(copies: seq<Command>, files: seq<seq<string>>, host: string, remotePath: string) {
    |copies| == |files|
    && forall k :: 0 <= k < |files| ==> copies[k] == Copy(files[k], host, RemoteFilePath(remotePath, files[k]))
  }

  lemma CopiesInOrderSnoc(copies: seq<Command>, files: seq<seq<string>>, last: seq<string>, host: string, remotePath: string)
    requires CopiesInOrder(copies, files, host, remotePath)
    ensures CopiesInOrder(copies + [Copy(last, host, RemoteFilePath(remotePath, last))], files + [last], host, remotePath)
  {
  }

  lemma FileCopies(parts: seq<string>, host: string, remotePath: string)
    ensures Copies(FileCommands(parts, host, remotePath)) == [Copy(parts, host, RemoteFilePath(remotePath, parts))]
  {
    var copy := Copy(parts, host, RemoteFilePath(remotePath, parts));
    var mk := if |parts| > 1 then [RemoteMkdir(host, remotePath + "/" + Join("/", parts[..|parts| - 1]))] else [];
    CopiesAppend(mk, [copy]);
    assert Copies(mk) == [] by {
      if |parts| > 1 {
        assert mk[..0] == [];
      }
    }
    assert [copy][..0] == [];
  }

  /** The number of files whose relative path has a parent directory. */
  function NestedCount(files: seq<seq<string>>): nat
    decreases |files|
  {
    if files == [] then 0
    else NestedCount(files[..|files| - 1]) + (if |files[|files| - 1]| > 1 then 1 else 0)
  }

  /** The files below a sub-directory, in order. */
  function Nested(files: seq<seq<string>>): (r: seq<seq<string>>)
    ensures |r| == NestedCount(files)
    ensures forall k :: 0 <= k < |r| ==> |r[k]| > 1 && r[k] in files
    decreases |files|
  {
    if files == [] then []
    else
      var last := files[|files| - 1];
      Nested(files[..|files| - 1]) + (if |last| > 1 then [last] else [])
  }

  /** The mkdirs of a command list, in order. */
  function Mkdirs(cmds: seq<Command>): seq<Command>
    decreases |cmds|
  {
    if cmds == [] then []
    else Mkdirs(cmds[..|cmds| - 1]) + (if cmds[|cmds| - 1].RemoteMkdir? then [cmds[|cmds| - 1]] else [])
  }

  lemma {:induction false} MkdirsAppend(a: seq<Command>, b: seq<Command>)
    ensures Mkdirs(a + b) == Mkdirs(a) + Mkdirs(b)
    decreases |b|
  {
    if b != [] {
      assert (a + b)[..|a + b| - 1] == a + b[..|b| - 1];
      MkdirsAppend(a, b[..|b| - 1]);
    } else {
      assert a + b == a;
    }
  }

  /** `mkdirs` holds exactly one mkdir per nested file, of that file's parent, in order. */
  predicate MkdirsInOrder(mkdirs: seq<Command>, nested: seq<seq<string>>, host: string, remotePath: string) {
    |mkdirs| == |nested|
    && forall k :: 0 <= k < |nested| ==>
         |nested[k]| > 1 && mkdirs[k] == RemoteMkdir(host, ParentPath(remotePath, nested[k]))
  }

  lemma FileMkdirs(parts: seq<string>, host: string, remotePath: string)
    ensures Mkdirs(FileCommands(parts, host, remotePath))
            == if |parts| > 1 then [RemoteMkdir(host, ParentPath(remotePath, parts))] else []
  {
    var cmds := FileCommands(parts, host, remotePath);
    if |parts| > 1 {
      assert cmds[..1][..0] == [];
      assert Mkdirs(cmds[..1]) == [cmds[0]];
      assert cmds[..|cmds| - 1] == cmds[..1];
      assert !cmds[1].RemoteMkdir?;
    } else {
      assert cmds[..0] == [];
    }
  }

  /**
   * A sub-directory mkdir is issued exactly for the files below a
   * sub-directory, in the files' order, each for that file's parent path.
   */
  lemma {:induction false} MkdirPerNestedFile(files: seq<seq<string>>, host: string, remotePath: string)
    ensures MkdirsInOrder(Mkdirs(CopyPlan(files, host, remotePath)), Nested(files), host, remotePath)
    decreases |files|
  {
    if files != [] {
      var init := files[..|files| - 1];
      var last := files[|files| - 1];
      MkdirPerNestedFile(init, host, remotePath);
      MkdirsAppend(CopyPlan(init, host, remotePath), FileCommands(last, host, remotePath));
      FileMkdirs(last, host, remotePath);
    }
  }
}

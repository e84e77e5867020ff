# Lab tooling scripts — a verified Dafny model

This project models the string- and list-handling parts of a small set of
lab tools:

- **The webborrow inventory scraper** (`webborrow/app.py`). An external
  tool called pyborrow prints a box-drawn text report. The scraper
  removes its colour codes, walks the report line by line with a
  three-variable state machine (section, cluster id, cluster-table flag),
  and turns every data row into a machine record. The record's state and
  borrower are derived from its status text. The scraper also reads the
  double-bordered summary table of four counts. The argv rule of
  `run_pyborrow` and the fetch, borrow and free success rules are modelled
  as well.
- **The wbox test launcher** (`wbox_test.py`): the three prompt loops and
  the shell command builder.
- **The cheetah machine cleaner** (`cheetah/machine_clean.py`): the two
  `df -h` parsers, the sudo-prompt filter on command output, and password
  masking in logs.
- **The diary app** (`diary/app.py`): the front-matter format written for
  an entry and read back from it, the year/month/day directory walk over
  the entry store, and the four todo-list operations.
- **The cheetah deployer** (`deploy_cheetah.py`): script-file selection and
  sorting, and the ssh/scp command plan and its success rule.
- **The machine file copier** (`machine_copy_files.py`): `mkdir -p` over
  SFTP against a set of existing remote paths, and the recursive copy with
  its two counters.

Layout. Each file is one module.

- `wrappers.dfy`: Option.
- `text.dfy`: Python's `strip`, `split`, `join`, `replace`, `lower` and
  `in` on strings.
- `box.dfy`: the box-drawing separator strings.
- `ansi.dfy`: colour-code removal.
- `machine_table.dfy`: the report scraper.
- `summary.dfy`: the summary-table reader.
- `pyborrow.dfy`: the argv and success rules.
- `wbox.dfy`: the wbox launcher.
- `machine_clean.dfy`: the machine cleaner.
- `order.dfy`: the sort orders, with insertion sort standing in for
  Python's `sorted`.
- `paths.dfy`: `os.path.dirname` and `Path.suffix` on strings.
- `deploy.dfy`: the deployer.
- `copy_files.dfy`: the copier.
- `diary_entries.dfy` and `diary_todos.dfy`: the diary.

The model follows the code, not its documentation, wherever the two
disagree. The documentation says colour-code removal leaves no code
behind. The code, however, makes a single left-to-right pass. Removing one
code can bring an ESC next to a `[…m` run that now forms a code, and the
pass leaves that code in place. `Ansi.StripAnsiSinglePass` exhibits such an
input.

The section-skip test in the scraper is a convoluted boolean expression.
It means: skip the line unless the section is exactly `standalone` or
starts with `cluster_`. `MachineTable.InRowSection` states that meaning.
The scraper's later "no name and no vendor" check can never fire, because
the name check before it has already rejected every row without a name, so
the model has no separate branch for it.

## Model

| member | source | states |
|---|---|---|
| Ansi.StripAnsi | webborrow/app.py:25-28 | the result is never longer than the input, and text with no ESC character comes back unchanged |
| Ansi.StripAnsiKeepsVisible | webborrow/app.py:25-28 | every character that cannot be part of a colour code survives, in order; only code characters are removed |
| Ansi.StripAnsiDropsSgr | webborrow/app.py:25-28 | a whole colour code at the front is removed and the scan resumes right after it |
| Ansi.StripAnsiPrefix | webborrow/app.py:25-28 | an ESC-free prefix is copied through and the rest is stripped independently |
| Ansi.StripAnsiColoured | webborrow/app.py:25-28 | a word wrapped in a colour code and a reset code comes back as the bare word |
| Ansi.StripAnsiSinglePass | webborrow/app.py:25-28 | removal is one pass, not a fixed point: ESC ESC `[m[m` leaves the complete code ESC `[m` behind |
| Ansi.SgrAt | webborrow/app.py:27 | a reported match length always delimits a complete `ESC [ digits-or-semicolons m` code at the front |
| Ansi.SgrAtFinds | webborrow/app.py:27 | whenever the front of the text is a complete code, the matcher finds exactly that code (the match is unique) |
| Ansi.VisibleAppend | webborrow/app.py:25-28 | the characters that survive in a concatenation are those of each part, concatenated |
| MachineTable.ParseMachineTable | webborrow/app.py:59-194 | the loop over the lines, with its three state variables, returns exactly the fold of marker steps and row emissions over the colour-stripped lines |
| MachineTable.FoldAppend | webborrow/app.py:73-194 | scanning two blocks of lines equals scanning the first, then the second from the state the first left; records come in line order |
| MachineTable.NoRecordsOutsideSections | webborrow/app.py:96-100 | outside a standalone or cluster section, lines that open no section emit nothing and stay outside |
| MachineTable.NothingBeforeFirstSection | webborrow/app.py:71-100 | lines before the first section marker contribute no records |
| MachineTable.QuietMarker | webborrow/app.py:88-94 | a `DP IXIAs` line, or a line with Total, Free and Taken, emits nothing and leaves the row sections |
| MachineTable.NothingAfterIxiaOrSummary | webborrow/app.py:88-100 | after an IXIA or summary marker, no record is emitted until another section opens |
| MachineTable.StandAloneMarker | webborrow/app.py:76-80 | a `Stand alone` line sets section standalone, clears the cluster id and the cluster flag, and is not parsed as a row |
| MachineTable.ClusterMarker | webborrow/app.py:81-87 | a `Cluster` line without a rule sets `cluster_<digits>` when it carries `Cluster <digits>` and otherwise leaves the state unchanged; either way it is not a row |
| MachineTable.ClusterIdAtStart | webborrow/app.py:82-84 | `Cluster`, whitespace, then digits yields exactly those digits as the cluster id |
| MachineTable.ClusterId | webborrow/app.py:82-84 | a found cluster id is a non-empty digit run from a line that mentions Cluster |
| MachineTable.RowRecord | webborrow/app.py:103-190 | a record only comes from a line with a vertical bar, no rule or corner string and no heading words; it is well formed and carries the current cluster exactly in a cluster table |
| MachineTable.RecordOf | webborrow/app.py:115-190 | a record needs at least 10 fields in a cluster table and 6 otherwise; it is well formed and has the table's cluster |
| MachineTable.ShortRow | webborrow/app.py:118-155 | a data row with fewer than 10 (cluster) or 6 (standalone) non-empty fields gives no record |
| MachineTable.ClusterRow | webborrow/app.py:124-139 | a cluster-table row maps nce_id to field 0, vendor to 1, name to 4, status to 6 and last connection to 9, with an optional comment at 10 |
| MachineTable.StandaloneRow | webborrow/app.py:141-155 | a standalone row maps vendor to field 0, name to 3 and status to 5, with missing trailing columns as empty strings and no cluster |
| MachineTable.EmitDataRow | webborrow/app.py:96-158 | inside a row section a data row emits its record, or nothing when it has none |
| MachineTable.RowUnderStandAlone | webborrow/app.py:76-155 | a data row right after a `Stand alone` heading becomes one record without a cluster, named by its fourth cell |
| MachineTable.RowUnderCluster | webborrow/app.py:81-139 | a data row right after a `Cluster N` heading becomes one record of cluster N, with its first cell as nce_id and its fifth as name |
| MachineTable.RecordsWellFormed | webborrow/app.py:157-190 | every emitted record has a non-empty name other than `wbox_name`, a non-empty status, a state and a borrower both derived from the status, and a borrower exactly when borrowed |
| MachineTable.MachinesWellFormed | webborrow/app.py:59-194 | every record of any report is well formed in that sense |
| MachineTable.StateOf | webborrow/app.py:168-184 | the state is decided by the first of available, no ping, no ssh, no cheetah found in the lower-cased status; deployed needs deploy and no `(`; a status naming none of them, or deploy with `(`, is borrowed |
| MachineTable.MakeMachine | webborrow/app.py:124-190 | name and status are the fourth and sixth columns after any nce_id, the nce_id and cluster are carried over, and state and borrower are derived from the status, with a borrower exactly when borrowed |
| MachineTable.BorrowerOf | webborrow/app.py:168-190 | a borrower exists exactly when the state is borrowed, and it is non-empty for a non-empty status |
| MachineTable.AvailableStatus | webborrow/app.py:169-172 | `Available` is classified available with no borrower |
| MachineTable.OfflineStatus | webborrow/app.py:173-175 | `No Ping`, matched case-insensitively, is classified offline |
| MachineTable.DeployedStatus | webborrow/app.py:182-184 | a bare `deploy` is classified deployed with no borrower |
| MachineTable.ParenthesisIsNotDeployed | webborrow/app.py:182-184 | a status with `(` is never classified deployed |
| MachineTable.BareDeployMark | webborrow/app.py:185-190 | `(deploy)` alone is borrowed, and the borrower falls back to the raw status because nothing is left after removing the mark |
| MachineTable.DeployMarkRemoved | webborrow/app.py:189-190 | removing `(deploy)` from a name followed by the mark gives back the name |
| MachineTable.BorrowerOfMarkedName | webborrow/app.py:168-190 | a trimmed name without `(`, followed by a space and `(deploy)`, and naming no other state, is borrowed by exactly that name |
| MachineTable.MarkedBorrower | webborrow/app.py:185-190 | `john (deploy)` is borrowed, and its borrower is `john` |
| Summary.ParseSummary | webborrow/app.py:197-230 | the loop returns the counts of the first qualifying line, or all zeros |
| Summary.FirstQualifyingLine | webborrow/app.py:209-228 | when line k is the first that qualifies, its counts are the result, whatever follows |
| Summary.NoSummaryGivesZeros | webborrow/app.py:201-230 | when no line qualifies, the result is all zeros |
| Summary.FirstSummaryWins | webborrow/app.py:209-228 | a drawn summary row after non-qualifying lines is read back exactly, ignoring later lines |
| Summary.SummaryRowRoundTrip | webborrow/app.py:211-225 | a double-bar row of four sensible counts reads back as those counts |
| Summary.SummaryOf | webborrow/app.py:211-228 | a line qualifies only if it has the double bar and no double rule, and its counts are non-negative with total at least free |
| Summary.NatToStringRoundTrip | webborrow/app.py:218 | the decimal digits of a natural number read back as that number |
| Summary.ParseNatToString | webborrow/app.py:218 | integer parsing of a number's decimal digits gives that number |
| Summary.CountCellsRead | webborrow/app.py:212-225 | four decimal count cells are read back as the counts |
| Pyborrow.PyborrowCommand | webborrow/app.py:36-42 | the command is interpreter, script and the arguments, plus a trailing `-q` exactly when a borrow or free flag is present |
| Pyborrow.ActionCommandsAreQuiet | webborrow/app.py:40-42 | a borrow or free call always ends in `-q` |
| Pyborrow.PlainCommandsAreNotQuiet | webborrow/app.py:36-42 | without a borrow or free flag, the arguments pass through untouched |
| Pyborrow.GetMachines | webborrow/app.py:240-258 | the fetch is an error exactly when the exit code is non-zero and stdout is empty; otherwise the result holds the scraped records, their count and the summary |
| Pyborrow.OutputIsParsedDespiteExitCode | webborrow/app.py:244-249 | any non-empty stdout is parsed, even with a failing exit code |
| Pyborrow.ActionSucceeded | webborrow/app.py:266-292 | an exit code of zero is success; so is the keyword, in any case, in output without colour codes; a failure always has a non-zero exit code |
| Pyborrow.BorrowSucceeded | webborrow/app.py:262-274 | a borrow succeeds on exit code zero or when the plain output mentions "borrowed" in any case |
| Pyborrow.FreeSucceeded | webborrow/app.py:285-297 | a free succeeds on exit code zero or when the plain output mentions "freed" in any case |
| Pyborrow.ColouredKeywordSucceeds | webborrow/app.py:266-292 | a coloured message containing the keyword counts as success whatever the exit code |
| Pyborrow.SilentFailure | webborrow/app.py:266-292 | a non-zero exit code without the keyword in the stripped, lower-cased output is a failure |
| WboxTest.PromptYesNoExclude | wbox_test.py:178-195 | the loop returns the reading of the first decisive answer, or none if the input ends first |
| WboxTest.PromptYesNo | wbox_test.py:198-216 | the loop returns the reading of the first decisive answer, with the default for a blank one |
| WboxTest.PromptString | wbox_test.py:219-231 | the loop returns the first answer that is neither a help word nor blank when required |
| WboxTest.YesNoExcludeAnswer | wbox_test.py:180-193 | a decisive answer is always yes, no or exclude |
| WboxTest.ExcludeChoice | wbox_test.py:180-193 | exclude exactly for an empty answer, exclude, e or x; yes exactly for yes or y; no exactly for no or n; help words and anything else ask again |
| WboxTest.YesNoChoice | wbox_test.py:200-216 | an empty answer is the default; true exactly for yes, y or an empty answer with default true; false exactly for no, n or an empty answer with default false |
| WboxTest.FirstDecisiveAnswer | wbox_test.py:178-231 | with answer k the first decisive one, its reading is the result |
| WboxTest.NoDecisiveAnswer | wbox_test.py:178-231 | input with no decisive answer yields no result |
| WboxTest.LaterAnswersUnread | wbox_test.py:178-231 | answers after the decisive one never change the result |
| WboxTest.BlankAnswerTakesDefault | wbox_test.py:186-208 | a blank answer means exclude, the default, or the empty string when not required, and re-prompts when required |
| WboxTest.PaddedAnswer | wbox_test.py:179-221 | surrounding whitespace never changes how an answer is read |
| WboxTest.UpperCaseYes | wbox_test.py:179-188 | `YES` is read as yes |
| WboxTest.UpperCaseNo | wbox_test.py:200-212 | `NO` is read as no |
| WboxTest.UpperCaseHelp | wbox_test.py:179-185 | `HELP` re-prompts |
| WboxTest.HelpIsNoText | wbox_test.py:222-227 | `H` re-prompts for a string, whether the field is required or not |
| WboxTest.StringAnswer | wbox_test.py:219-231 | an answer is taken trimmed and in its own case; it is refused exactly when it is a help word in any case, or blank while required |
| WboxTest.CollectMakeParams | wbox_test.py:256-273 | the appended parameters are the fixed-order list of settings |
| WboxTest.BuildCommand | wbox_test.py:234-280 | the command is the segments joined with ` ; ` |
| WboxTest.CommandSegments | wbox_test.py:244-280 | the command splits back into its segments; it starts with the cd, ends with the make segment, and has clear_containers before clear_logs, each present exactly when asked |
| WboxTest.ParamsInOrder | wbox_test.py:259-273 | BP_ON_FAIL comes first, then CHEETAH_HANDLER=remote, then GENERATE_CONFIG, with yes as 1 and no as 0 |
| WboxTest.SettingOnlyForYesOrNo | wbox_test.py:259-273 | a setting adds a parameter exactly for yes or no, and at most one |
| WboxTest.BareMakeSegment | wbox_test.py:253-276 | with no parameters the make segment has no trailing space |
| MachineClean.ParseDfOutput | cheetah/machine_clean.py:202-222 | the loop keeps the partitions of the non-header, non-blank lines, or gives the single unknown partition |
| MachineClean.DiskUsage | cheetah/machine_clean.py:179-194 | the parse drops the first line unconditionally and maps the rest the same way, never returning an empty list |
| MachineClean.PartitionOf | cheetah/machine_clean.py:211-220 | a line gives a partition exactly when it has at least six whitespace-separated tokens |
| MachineClean.OrUnknown | cheetah/machine_clean.py:222 | the result is never empty: no partitions become one all-`?` record |
| MachineClean.SkippedLinesGiveNothing | cheetah/machine_clean.py:207-210 | header and blank lines give no partition |
| MachineClean.DataLineGivesPartition | cheetah/machine_clean.py:211-220 | a data line's first six tokens become the six fields, in order; extra tokens are ignored |
| MachineClean.ShortLineGivesNothing | cheetah/machine_clean.py:211-213 | a line with fewer than six tokens gives no partition |
| MachineClean.DiskUsageAgreesWithDf | cheetah/machine_clean.py:180-222 | on output headed by one Filesystem line, both parsers read the same partitions |
| MachineClean.DiskUsageLosesFirstDataLine | cheetah/machine_clean.py:180-194 | without a header line, the disk-usage parse loses the first data line that the df parser keeps |
| MachineClean.KeptLines | cheetah/machine_clean.py:155-157 | every kept line is one of the input lines and mentions neither `[sudo]` nor the password; there are no more of them than input lines |
| MachineClean.KeptLinesComplete | cheetah/machine_clean.py:155-157 | every input line that mentions neither `[sudo]` nor the password is kept |
| MachineClean.KeptLinesAppend | cheetah/machine_clean.py:155-157 | filtering keeps line order |
| MachineClean.CleanLinesKept | cheetah/machine_clean.py:155-157 | lines without a prompt or the password all survive |
| MachineClean.SudoOutputLines | cheetah/machine_clean.py:147-157 | with sudo, the returned stdout is exactly the kept lines of the stripped output |
| MachineClean.CommandStdout | cheetah/machine_clean.py:147-157 | without sudo the stripped stdout comes back unchanged; with sudo it is empty when every line is dropped, never shows `[sudo]`, and never shows a non-empty one-line password |
| MachineClean.EmptyPasswordDropsAll | cheetah/machine_clean.py:155-157 | with an empty password every line is dropped, since the empty string occurs in every line |
| MachineClean.MaskedLines | cheetah/machine_clean.py:67-83 | an empty stream prints no lines; otherwise one masked line per output line, and none of them shows a non-empty password without `*` |
| MachineClean.Masked | cheetah/machine_clean.py:59-83 | a non-empty password without `*` never survives masking, and text without the password is logged unchanged |
| MachineClean.MaskLeaksStarPassword | cheetah/machine_clean.py:59-83 | a password containing `*` can reappear through the mask itself |
| DeployCheetah.FindScriptFiles | deploy_cheetah.py:34-55 | a missing directory gives nothing; otherwise the result is the selected files, sorted |
| DeployCheetah.FoundScripts | deploy_cheetah.py:34-55 | the result is sorted, a permutation of the selection, and holds exactly the paths of script files |
| DeployCheetah.PathsWhereMembers | deploy_cheetah.py:41-53 | a path is selected exactly when some listed entry has it and passes the test |
| DeployCheetah.UpperCaseExtension | deploy_cheetah.py:43-44 | the extension test ignores case: `RUN.SH` is a script |
| DeployCheetah.ShebangNeedsNoExtension | deploy_cheetah.py:43-53 | a `#!` first line selects a file without an extension, but not one with an unlisted extension |
| DeployCheetah.IsScript | deploy_cheetah.py:41-53 | only regular files are selected; one with an extension needs a listed extension in any case, which always suffices, and one without an extension needs a readable `#!` first line |
| DeployCheetah.ScpFiles | deploy_cheetah.py:58-99 | no files returns success without commands; a failed root mkdir returns failure before any copy; otherwise every planned command is issued and success means every copy succeeded |
| DeployCheetah.OneCopyPerFile | deploy_cheetah.py:76-99 | exactly one copy per file, in file order, each to the remote path joined with the relative path |
| DeployCheetah.FileCommands | deploy_cheetah.py:77-91 | a file's commands end with its copy to the remote root joined with its path, and begin with the mkdir of its parent directory exactly when it is nested |
| DeployCheetah.LandsInParent | deploy_cheetah.py:80-84 | a nested file's target is the directory its mkdir creates, then `/` and the file name |
| DeployCheetah.CopyPlan | deploy_cheetah.py:77-97 | the plan has one command per file plus one per nested file |
| DeployCheetah.IssueFile | deploy_cheetah.py:78-95 | one round of the loop issues exactly that file's commands and reports the copy's exit code |
| DeployCheetah.Nested | deploy_cheetah.py:83 | the nested files are files of the list with a parent directory, one per nested file |
| DeployCheetah.MkdirPerNestedFile | deploy_cheetah.py:77-86 | the mkdirs of the plan are, in file order, exactly one per nested file, each for that file's remote parent directory |
| DeployCheetah.CopiesAppend | deploy_cheetah.py:76-99 | the copies of a concatenated plan are those of its parts |
| Paths.Suffix | deploy_cheetah.py:43-45 | a suffix is empty or a dot-led tail of the name with no further dot and not the whole name |
| Paths.Stem | deploy_cheetah.py:43-45 | stem and suffix put back together give the name |
| Paths.SuffixOfExtension | deploy_cheetah.py:43-45 | `base.ext` has suffix `.ext` |
| Paths.HiddenNameHasNoSuffix | deploy_cheetah.py:45 | a dot file such as `.profile` has no suffix |
| Paths.Dirname | machine_copy_files.py:117 | the parent is a prefix of the path, strictly shorter unless the path is the root or empty, and carries no trailing slash unless it is the root |
| Paths.DirnameOfChild | machine_copy_files.py:117 | the parent of `dir/name` is `dir` |
| Paths.DirnameOfName | machine_copy_files.py:117-118 | a bare name's parent is the empty string, which ends the walk |
| CopyFiles.MissingChain | machine_copy_files.py:105-118 | the walk collects nothing exactly when the path already exists, and starts from the path itself |
| CopyFiles.ChainMissing | machine_copy_files.py:110-116 | every collected directory is missing |
| CopyFiles.ChainParents | machine_copy_files.py:114-118 | each collected directory after the first is the parent of the one before it and is neither `/` nor `""` |
| CopyFiles.ChainTop | machine_copy_files.py:110-118 | the walk stops at an existing directory, `/` or `""` |
| CopyFiles.ParentsFirst | machine_copy_files.py:120-122 | in creation order, every directory's parent exists or was created just before it |
| CopyFiles.ChainDistinct | machine_copy_files.py:114-118 | collected directories get strictly shorter, so none is created twice |
| CopyFiles.MachineCopyFiles.CollectMissing | machine_copy_files.py:107-118 | the loop collects exactly the missing chain |
| CopyFiles.MachineCopyFiles.MakeDirs | machine_copy_files.py:120-123 | directories are created in reverse order and the counter grows by their number |
| CopyFiles.MachineCopyFiles.RemoteMkdirP | machine_copy_files.py:105-123 | the missing ancestors are created parents first, the counter grows by their number, and the path exists afterwards |
| CopyFiles.MachineCopyFiles.CopyRecursive | machine_copy_files.py:125-141 | the puts are the tree's files in sorted order and files_copied grows by their number; the paths found and the directories made end exactly as `CopyEffect` gives them; nothing found or made before is lost; the destination and every directory of the tree exist afterwards; into a fresh destination dirs_created grows by one plus the number of directories in the tree |
| CopyFiles.MachineCopyFiles.CopyEntry | machine_copy_files.py:129-138 | a directory is copied recursively and then exists with its whole tree; anything else is put once, counted, and then exists on the remote side; the remote side ends as `EntryEffect` gives it |
| CopyFiles.MkdirGrows | machine_copy_files.py:105-123 | `mkdir -p` loses nothing found or made before and leaves the path present |
| CopyFiles.CopyGrows | machine_copy_files.py:125-141 | after a copy everything found or made before is still there, and the destination and every directory of the tree below it exist |
| CopyFiles.EntriesGrows | machine_copy_files.py:129-138 | during the entry loop every directory visited so far exists with its whole tree |
| CopyFiles.EntryGrows | machine_copy_files.py:130-138 | one entry loses nothing, and afterwards its directory (with its tree) or its file exists |
| CopyFiles.CopyDone | machine_copy_files.py:125-141 | once the whole listing is visited, the puts, the file count and the remote side are those of the whole tree |
| CopyFiles.FreshChain | machine_copy_files.py:105-123 | for a fresh destination whose parent exists, `mkdir -p` creates exactly that one directory |
| CopyFiles.FreshCopy | machine_copy_files.py:120-123 | a copy into a fresh destination counts one directory for the destination plus one per directory of the tree, and adds nothing outside the destination |
| CopyFiles.FreshEntries | machine_copy_files.py:129-138 | in a fresh destination, the entries visited so far made one directory per directory of their trees and touched nothing below the entries still to come |
| CopyFiles.FreshEntry | machine_copy_files.py:130-138 | in a fresh destination one entry adds only paths below its own name, so later siblings stay fresh |
| CopyFiles.FreshCopyOneDir | machine_copy_files.py:125-141 | copying one directory into a fresh destination makes both, and the directory exists afterwards |
| CopyFiles.FreshCopyExample | machine_copy_files.py:125-141 | `sub/a.txt` copied into a new `/home/dn/x` makes two directories, and `/home/dn/x/sub` exists afterwards |
| CopyFiles.UnderOneName | machine_copy_files.py:131 | no remote path lies below two different names of one directory |
| CopyFiles.ListingDistinct | machine_copy_files.py:129 | sorting a listing keeps its names distinct |
| CopyFiles.DirCountListing | machine_copy_files.py:129 | sorting a listing does not change the number of directories in it |
| CopyFiles.OnePutPerFile | machine_copy_files.py:125-141 | the copy puts exactly one file per file in the tree |
| CopyFiles.FileCountListing | machine_copy_files.py:129 | sorting the listing does not change the number of files |
| CopyFiles.Listing | machine_copy_files.py:129 | the sorted listing is a permutation of the directory's entries |
| DiaryEntries.EntryText | diary/app.py:179-184 | the written file opens with `---`, ends with the content and a newline, and is 17 characters longer than the date and content together |
| DiaryEntries.EntryOf | diary/app.py:245-256 | text not opening with `---` is its own content without a date; a date is only ever found after an opening `---`; the content is the text itself or a stripped piece of it (a substring of the text) |
| DiaryEntries.EntryRoundTrip | diary/app.py:179-184 | the text written for an entry parses back to its date and its trimmed content |
| DiaryEntries.UnclosedFrontMatter | diary/app.py:248-252 | a file whose front matter is never closed is returned verbatim, with no date |
| DiaryEntries.LastDateIsLast | diary/app.py:254-256 | the last `date:` line wins |
| DiaryEntries.NoDateLine | diary/app.py:254-256 | without a `date:` line the date stays unset |
| DiaryEntries.LastDate | diary/app.py:254-256 | a date, when found, is the value of some `date:` line |
| DiaryEntries.MetadataDate | diary/app.py:252-256 | the loop over the metadata lines ends with the date of the last `date:` line |
| DiaryEntries.ParseEntry | diary/app.py:245-256 | the file text parses to the date and content of the front-matter reading |
| DiaryEntries.GetAllEntries | diary/app.py:220-275 | the nested loops list exactly the days of the reference walk, in the walk's descending name order |
| DiaryEntries.CollectMonths | diary/app.py:232-273 | a year's months are walked newest first, only all-digit names |
| DiaryEntries.CollectDays | diary/app.py:236-273 | a month's days are walked newest first, only names with `-` and only days with entries |
| DiaryEntries.ReadDay | diary/app.py:241-266 | a day's entries are its `.md` files, newest first, each filed under that day |
| DiaryEntries.YearsIn | diary/app.py:228-273 | every listed day lies under an all-digit year and month and a `-` day, and has at least one entry filed under it |
| DiaryEntries.DaysDescending | diary/app.py:236-273 | days walked in descending name order are listed newest first |
| DiaryEntries.MonthNewestFirst | diary/app.py:236-273 | within a month, days are listed newest first |
| DiaryEntries.DayListed | diary/app.py:236-273 | every day directory with at least one entry is listed |
| DiaryEntries.DayOf | diary/app.py:267-273 | a day is listed at most once, and only with entries |
| DiaryTodos.TodoStore.CreateTodo | diary/app.py:306-317 | one new, not-done todo is appended at the end, the rest are unchanged, and the list is saved |
| DiaryTodos.TodoStore.ToggleTodo | diary/app.py:320-328 | the first todo with the id is flipped and returned, and saved; with no match nothing changes and nothing is saved |
| DiaryTodos.TodoStore.UpdateTodoText | diary/app.py:331-339 | the first todo with the id gets the new text and is returned and saved; with no match nothing changes |
| DiaryTodos.TodoStore.DeleteTodo | diary/app.py:342-349 | every todo with the id is removed, the others keep their order, and the result and the save say whether anything was removed |
| DiaryTodos.FirstIndex | diary/app.py:322-336 | the index found is of the first todo with the id; none is found exactly when no todo has it |
| DiaryTodos.Toggled | diary/app.py:320-328 | only the first matching todo's done flag changes; ids, texts and dates stay |
| DiaryTodos.Updated | diary/app.py:331-339 | only the first matching todo's text changes; nothing else does |
| DiaryTodos.Without | diary/app.py:345-346 | no kept todo has the id, every kept todo was there, and the length drops exactly when some todo had the id |
| DiaryTodos.ToggleTwice | diary/app.py:320-328 | toggling the same id twice restores the list |
| DiaryTodos.UpdateTwice | diary/app.py:331-339 | the second update of a text overrides the first |
| DiaryTodos.WithoutKeeps | diary/app.py:345 | every todo with a different id survives a delete |
| DiaryTodos.WithoutAppend | diary/app.py:345 | delete works element by element over a concatenation |
| DiaryTodos.CreateThenDelete | diary/app.py:306-349 | deleting a freshly created todo with a new id restores the list |
| DiaryTodos.WithoutAbsent | diary/app.py:342-349 | deleting an absent id changes nothing |
| Order.SortAscendingSorted | deploy_cheetah.py:55 | the insertion sort standing for `sorted` gives an ascending list |
| Order.SortDescendingSorted | diary/app.py:228-241 | the reverse sort gives a descending list |
| Order.InsertAscendingSorted | deploy_cheetah.py:55 | inserting into an ascending list keeps it ascending |
| Order.InsertDescendingSorted | diary/app.py:228-241 | inserting into a descending list keeps it descending |
| Order.PathLessTotal | deploy_cheetah.py:55 | any two distinct paths are ordered one way or the other |
| Order.PathLessTransitive | deploy_cheetah.py:55 | the path order is transitive |

## Left out

- Process, network and filesystem I/O are not modelled: the pyborrow
  subprocess, the SSH and SFTP sessions, the `ssh` and `scp` runs, `git`,
  and the Flask routes and templates. Their results enter the model as
  parameters: stdout, stderr and exit code, a function from command index
  to exit code, a set of existing remote paths, and trees of local
  entries.
- The time tracker is not modelled: its logic lives in SQL queries and
  route handlers.
- `parse_size`, `format_size` and the partition summary printing in the
  machine cleaner are not modelled, because they are floating-point
  arithmetic and printing. Likewise `get_remote_machine_var` and the other
  remote probing steps: their results depend only on remote output.
- The diary's git sync and background sync thread are not modelled, because
  they are concurrency and network. `delete_entry` is not modelled, because
  it is a file removal.
- Dates, entry ids and todo ids (`datetime.now`, `strftime`, `uuid`) are
  parameters. `load_todos` and `save_todos` become the store's list plus a
  save counter; JSON decoding errors are not modelled.
- `Text.Lower`, `Text.IsDigits`, `MachineTable.IsDigit` and
  `Summary.ParseInt` work on ASCII only. So Unicode case mapping is not
  modelled, and neither are Unicode digits in `str.isdigit` on year and
  month directory names, in the `\d` of the cluster pattern, or in `int`.
  Underscores in integer literals are not modelled either. `Text.IsSpace`
  does cover every character `str.isspace` accepts.
- Logging and printing are not modelled: emoji logs, verbose output,
  output truncation, the progress line every 50 copied files, and the
  help texts. Masking is modelled as the text the log receives.
- DeployCheetah.FindScriptFiles: the recursive listing is given as a
  sequence of entries with relative paths as parts. The order of
  `rglob` is irrelevant once the result is sorted. Paths are compared
  part by part, which is how `sorted` orders paths under one directory.
  Unreadable files are modelled as entries with no content.
- DeployCheetah.ScpFiles: the local cheetah directory is taken to be the
  root of the relative paths. The mkdir for an empty remote path and the
  exact shell quoting of the ssh command are not modelled.
- DiaryEntries.GetAllEntries: a directory named like an entry file
  (`x.md`) is not matched by the entry glob. Entry files are exactly the
  file nodes whose names end in `.md`.
- CopyFiles.MachineCopyFiles.CopyRecursive: an SFTP error that aborts the
  copy half-way is not modelled; the contract describes a copy that
  raises nothing.
- CopyFiles.FreshCopy: `dirs_created` is given in closed form only for a
  fresh destination. That means the destination has no trailing '/', its
  parent exists (or is "/" or ""), nothing exists at or below it yet, and
  the tree's sibling names are distinct, non-empty and free of '/'. In
  every other case, CopyRecursive states the counter through
  `CopyEffect`, which follows each `stat`.
- WboxTest.PromptYesNoExclude, WboxTest.PromptYesNo and
  WboxTest.PromptString: the typed answers are a finite sequence. When it
  runs out before a decisive answer, the model returns `None`. In the
  script, `input()` raises `EOFError` at that point and the run aborts
  with a traceback. The abort itself is not modelled.
- The pyborrow report's box glyphs are opaque three-character constants.
  Only their whole-string occurrences matter, and other Unicode text in the
  report is treated as plain characters.

# hostman, modelled in Dafny

hostman is a command-line tool that edits the system hosts file. It can add a
host line, remove a host, comment out a host line ("disable") and bring it back
("enable"), and it can list the lines that mention a host. This project models
the core of the program:

- the managed hosts file of `src/hostsfile.rs`. It is an ordered list of parsed
  lines. The model covers its queries (`get_matches`, `get_multi_match`,
  `has_host`, `has_disabled_host`, `without_comments`, `Display`) and its
  in-place edits (`add_line`, `remove_host`, `disable_host`, `enable_host`).
  The file is the class `HostsFile.ManagedHostsFile`. Every method on it is
  proved against a pure function over the line sequence, and the properties of
  the program's tests are proved about those functions.
- the exact-match pattern `(^| )needle( |$)` of `src/file_utils.rs`
  (`FileUtils`). The copy of it inside `src/commands/mod.rs` is the same
  pattern, so it is modelled only once.
- the edit commands of `src/commands.rs` (`add`, `add_local`, `remove`,
  `disable`, `enable`), in `Commands`. Each command receives the loaded file,
  edits it in place and returns the outcome it would report. A failing
  `unwrap` becomes the outcome `Panicked`.
- the older text-based commands of `src/commands/mod.rs` (`check` and `add`),
  in `LegacyCheck` and `LegacyAdd`. They work on the raw text of the file.

The line type comes from the external `hosts_parser` crate, whose source is not
available. `HostsLine` is a small concrete stand-in for it:

- A line is an address line, a comment line or a blank line.
- Parsing cuts the text at its first `#`.
- The words before the `#` are split at spaces, and empty words are dropped.
- The comment is kept verbatim, including its `#`.

This is the behaviour the program's own tests rely on. One example: a
double-spaced line such as `127.0.0.1  localhost` renders with a single space.

## Model

| member | source | states |
|---|---|---|
| HostsFile.MatchTypeFromBool | src/hostsfile.rs:15-21 | the match type is `Exact` exactly when the flag is true |
| HostsFile.LineMatches | src/hostsfile.rs:55-57 | the per-line test of `get_matches` on the rendered line; a match in either mode is a substring occurrence of the host |
| HostsFile.Matches | src/hostsfile.rs:52-60 | every line kept matches the host; every line that matches is kept, as many times as it occurs in the file; the kept lines are in file order |
| HostsFile.MatchesKeepsRepeats | src/hostsfile.rs:53-59 | a matching line that occurs twice in the file is reported twice |
| HostsFile.ExactMatchesArePartial | src/hostsfile.rs:55-57 | the exact matches are a subsequence of the partial (substring) matches |
| HostsFile.AbsentHostNoMatches | src/hostsfile.rs:172-176 | a host that does not occur in the file's text matches no line in either mode |
| HostsFile.HostsMatchExactly | src/hostsfile.rs:178-180 | every host name of a line matches that line's rendering exactly |
| HostsFile.LiveHostMatches | src/hostsfile.rs:70-74 | a host that `has_host` reports always has an exact match |
| HostsFile.MultiMatch | src/hostsfile.rs:62-68 | it returns exactly the requested names that have a match, a repeated name as often as it was requested, in request order |
| HostsFile.MultiMatchAllFound | src/hostsfile.rs:203-207 | when every requested name matches, the request comes back unchanged |
| HostsFile.Live | src/hostsfile.rs:70-74 | `has_host`, as `any` over the lines: true exactly when some line lists the host among its names |
| HostsFile.Disabled | src/hostsfile.rs:76-81 | `has_disabled_host`, as `any` over the lines: true exactly when some line's comment contains the host (the per-line test is `CommentMentions`) |
| HostsFile.FirstLive | src/hostsfile.rs:89-93 | it finds a line exactly when the host is live; the index found is the first line listing the host |
| HostsFile.FirstDisabled | src/hostsfile.rs:113-116 | it finds a line exactly when some comment contains the host; the index found is the first such line |
| HostsFile.FirstDisabledAt | src/hostsfile.rs:112-116 | the search stops at the first comment mentioning the host |
| HostsFile.Uncommented | src/hostsfile.rs:127-133 | it keeps exactly the lines that map a host, each as many times as it occurs, in file order |
| HostsFile.Serialize | src/hostsfile.rs:145-151 | the rendered file always ends in a line break |
| HostsFile.SerializeAppend | src/hostsfile.rs:237-261 | on a non-empty file, the text gains the line's rendering and a line break; an empty file's text becomes the rendering and a line break |
| HostsFile.RemoveFirstLive | src/hostsfile.rs:88-95 | exactly the first line listing the host is deleted; the others keep their order; well-formedness is kept |
| HostsFile.AddThenRemoveRestores | src/hostsfile.rs:263-275 | adding a line with a new host and then removing that host gives back the original lines |
| HostsFile.DisabledLine | src/hostsfile.rs:104-105 | the replacement line maps no host, and its comment is `#` followed by the old line's rendering |
| HostsFile.DisabledLineWellFormed | src/hostsfile.rs:104-105 | the comment line that replaces a well-formed line is well formed |
| HostsFile.DisabledLineMentions | src/hostsfile.rs:104-106 | the comment that replaces a line mentions every host name of that line |
| HostsFile.EnableDisabledLine | src/hostsfile.rs:119-121 | parsing the comment of a disabled line, without its `#`, gives the original line |
| HostsFile.DisableFirstLive | src/hostsfile.rs:97-110 | only the first line listing the host changes, into its commented form; the lines are unchanged when the host is not live |
| HostsFile.LiveWithoutSlot | src/hostsfile.rs:97-106 | replacing a line by one without hosts affects liveness like deleting it |
| HostsFile.DisableTakesLineOffline | src/hostsfile.rs:282-286 | after disabling, a name is live exactly when another line lists it |
| HostsFile.DisableReportsNames | src/hostsfile.rs:282-286 | after disabling, every name of the disabled line is reported as disabled |
| HostsFile.EnableFirstDisabled | src/hostsfile.rs:112-125 | only the first comment mentioning the host is re-parsed; nothing changes when there is none; well-formedness is kept |
| HostsFile.EnableRestoresSlot | src/hostsfile.rs:118-121 | enabling a line that was commented out in place, by one of its names, restores the line, provided no earlier comment mentions that name; otherwise `enable_host` re-parses that earlier comment instead |
| HostsFile.DisableThenEnableRestores | src/hostsfile.rs:289-300 | disabling a host and then enabling a name of that line restores the original lines, provided no comment before the disabled line mentions that name |
| HostsFile.TextLines | src/hostsfile.rs:40-41 | the physical lines of a text hold no line break |
| HostsFile.ParseLine | src/hostsfile.rs:41 | one physical line parses to this line |
| HostsFile.ParseLines | src/hostsfile.rs:40-46 | each physical line parses on its own, and the count is kept |
| HostsFile.ParseFile | src/hostsfile.rs:40-46 | the whole text parsed: one line per physical line, each the parse of that physical line, all well formed |
| HostsFile.RenderParseLines | src/hostsfile.rs:157-163 | lines that are already in rendered form render back to themselves |
| HostsFile.TextLinesOfTerminated | src/hostsfile.rs:159-160 | a text ending in a line break splits into its physical lines plus one empty piece |
| HostsFile.SerializeParseFile | src/hostsfile.rs:157-164 | loading a text whose lines are already in rendered form and writing it out again gives the same text |
| HostsFile.ManagedHostsFile.FromText | src/hostsfile.rs:40-46 | the file holds the parsed lines and the file name |
| HostsFile.ManagedHostsFile.AddLine | src/hostsfile.rs:83-86 | the parsed line is appended; on a non-empty file the text gains its rendering and a line break |
| HostsFile.ManagedHostsFile.RemoveHost | src/hostsfile.rs:88-95 | the lines become `RemoveFirstLive` of the old lines; the caller must ensure the host is live, as the `unwrap` demands |
| HostsFile.ManagedHostsFile.DisableHost | src/hostsfile.rs:97-110 | the lines become `DisableFirstLive` of the old lines; `found` reports whether the host was live |
| HostsFile.ManagedHostsFile.EnableHost | src/hostsfile.rs:112-125 | the lines become `EnableFirstDisabled` of the old lines; `found` reports whether a comment mentioned the host |
| HostsLine.Render | src/hostsfile.rs:147-148 | the line's `Display`: a well-formed line renders without a line break |
| HostsLine.RenderEndsInComment | src/hostsfile.rs:147-148 | a line with a comment renders ending in that comment |
| HostsLine.Comment | src/hostsfile.rs:112-121 | `comment()`: a comment line always has one, a blank line has none, and on a well-formed line it is comment text starting with `#`, the character `comment[1..]` drops |
| HostsLine.Hosts | src/hostsfile.rs:73 | lines other than address lines have no host names |
| HostsLine.HasHost | src/hostsfile.rs:130 | a line has a host exactly when its host list is non-empty |
| HostsLine.FromComment | src/hostsfile.rs:105 | the line has the given comment and no hosts; it is well formed when the text is a comment |
| HostsLine.FromString | src/hostsfile.rs:84 | parsing fails exactly on text with a line break; a parsed line is well formed |
| HostsLine.Assemble | src/hostsfile.rs:120 | words that are tokens and a comment text (or nothing) give a well-formed line |
| HostsLine.FromStringAt | src/hostsfile.rs:120 | parsing cuts a one-line text at its first `#` |
| HostsLine.FromStringOfRender | src/hostsfile.rs:119-121 | parsing a rendered well-formed line gives the same line |
| HostsLine.FromStringCollapsesDoubleSpace | src/hostsfile.rs:159-160 | before any comment, a double space parses like a single space |
| HostsLine.FromStringOfHostsLine | src/hostsfile.rs:243-245 | `"<ip> <h1> ... <hn>"` parses to an address line with exactly those hosts |
| HostsLine.RenderShowsHosts | src/hostsfile.rs:180 | every host name of a line occurs in its rendering |
| HostsLine.LoadCollapsesSpaces | src/hostsfile.rs:157-164 | `127.0.0.1  localhost` parses to one host and renders with a single space |
| FileUtils.ExactMatch | src/file_utils.rs:3-6 | the pattern matches exactly when the needle occurs with the text start or a space before it and the text end or a space after it; a match implies a substring occurrence |
| FileUtils.MatchFrom | src/commands/mod.rs:28-31 | the scan behind `FileUtils.ExactMatch`, which models both copies of the pattern (this one and src/file_utils.rs:3-6): scanning from a position finds a delimited occurrence exactly when one exists at or after it |
| FileUtils.ExactMatchOfItself | src/file_utils.rs:4 | a name matches itself exactly |
| FileUtils.WithoutSpacesOnlyWholeText | src/file_utils.rs:4-5 | in text without spaces only the whole text matches |
| FileUtils.OnlySpaceSeparates | src/file_utils.rs:5 | a name flanked by any character other than a space does not match |
| FileUtils.JoinedPartsDelimited | src/file_utils.rs:3-5 | each part of a space-joined text is delimited where it starts, whatever space-led text follows |
| FileUtils.JoinedPartsMatch | src/file_utils.rs:3-6 | each part of a space-joined text matches it exactly |
| FileUtils.ShiftDelimited | src/file_utils.rs:4 | a delimited occurrence stays delimited behind a prefix that ends in a space |
| Commands.ComputedComment | src/commands.rs:38-43 | the comment is never empty; it is the joined words when they are non-empty, and "Added by hostman" when they are empty |
| Commands.HostLine | src/commands.rs:44 | the line `<ip> <names> # <comment>`; every requested name matches it exactly |
| Commands.HostLineParses | src/commands.rs:37-44 | the host line parses to the address, exactly the requested names, and the comment `# <comment>` |
| Commands.RemoveInTurn | src/commands.rs:53-56 | when every removal succeeds, one line goes per name, the remaining lines are a subsequence of the old ones, and well-formedness is kept |
| Commands.RemoveInTurnKeepsUnaffected | src/commands.rs:53-56 | when every removal succeeds, every line that lists none of the requested names is still there, as often as before and in the same order |
| Commands.NotLiveFails | src/commands.rs:53-56 | a requested name that is on no host line makes the removals fail, wherever it stands in the list: the `unwrap` at src/hostsfile.rs:93 fires |
| Commands.SeparateLinesSucceed | src/commands.rs:53-56 | when every requested name is live and no line lists two of them (a name requested twice counts as two), every removal finds its line |
| Commands.RemoveEachHost | src/commands.rs:53-56 | the loop succeeds exactly when `RemoveInTurn` does, and then leaves its lines |
| Commands.AddResult | src/commands.rs:20-63 | `add` on the loaded lines, with a full case split: it refuses exactly when some name matches and `update` is off; it appends exactly when no name matches and the host line is one line; it updates exactly when some name matches, `update` is on, the host line is one line and every `remove_host` succeeds; it panics exactly in the remaining cases; a refusal reports exactly `get_multi_match` of the names; a refusal or a panic leaves the lines as they were; an append or update reports the host line and ends the file with its parse; before that line, an append keeps the old lines and an update keeps what the `remove_host` calls leave; well-formed lines stay well formed |
| Commands.UpdateKeepsUnaffected | src/commands.rs:45-61 | after a successful update, the lines before the host line are a subsequence of the old lines and include every line that `AddPurging` keeps |
| Commands.Add | src/commands.rs:27-62 | the outcome is `AddResult`'s outcome; unless the command panics, the lines are `AddResult`'s lines |
| Commands.AddLocal | src/commands.rs:65-75 | it behaves as `add` with the address 127.0.0.1 |
| Commands.AddRefusesPresentName | src/commands.rs:27-36 | without `update`, a requested name that already matches makes `add` refuse, report that name and leave the file unchanged |
| Commands.AddedNamesWereAbsent | src/commands.rs:27-61 | when `add` appends without updating, none of the names was live, and the file is the old lines plus the new host line |
| Commands.UpdateSharedLinePanics | src/commands.rs:45-57 | on a file whose only line is `<ip> a b`, with any comment (so also the line `add` itself writes), `add` with `update` set and the names `a,b` panics (see Findings) |
| Commands.UpdateWithDeadNamePanics | src/commands.rs:45-57 | `add` with `update` set panics whenever the exact search finds some requested name but one of the requested names is on no host line, such as a new alias or a name only a comment mentions |
| Commands.Unaffected | src/commands.rs:53-56 | no requested name is live in the result; every line listing none of them is kept, as many times as it occurs; the order is kept |
| Commands.PurgeStep | src/commands.rs:55 | removing a line that lists a requested name keeps the unaffected lines |
| Commands.RemoveKeepsAbsent | src/hostsfile.rs:88-95 | removing a line never makes a name live |
| Commands.AllPurged | src/commands.rs:53-56 | once no requested name is live, every line is unaffected |
| Commands.PurgeNames | src/commands.rs:53-56 | the file is left with exactly the unaffected lines, in order |
| Commands.FreshNamesUnaffected | src/commands.rs:29-45 | when no requested name matches, nothing is purged |
| Commands.AddPurging | src/commands.rs:45-61 | `add` with the update loop corrected: refusal as before; otherwise the file is the unaffected lines plus the new host line |
| Commands.Remove | src/commands.rs:77-86 | a live host's first line is removed; otherwise "not in hosts file" and nothing changes |
| Commands.Disable | src/commands.rs:88-101 | a live host's first line is commented out; otherwise it reports "already disabled" or "not in hosts file" and nothing changes |
| Commands.Enable | src/commands.rs:103-116 | the first comment mentioning the host is re-parsed; otherwise it reports "already enabled" or "not in hosts file" and nothing changes |
| LegacyCheck.LineMentions | src/commands/mod.rs:38-44 | the filter test of `get_matches`: an exact match or a substring; a line that passes it contains the host in either mode |
| LegacyCheck.GetMatches | src/commands/mod.rs:33-37 | the lines returned are a subsequence of the text's lines |
| LegacyCheck.GetMatchesExactly | src/commands/mod.rs:33-46 | every line kept is a line of the text and mentions the host; every line that mentions it is kept, as many times as it occurs in the text |
| LegacyCheck.ExactLinesArePartial | src/commands/mod.rs:38-44 | the exact-match lines are a subsequence of the substring-match lines |
| LegacyCheck.AbsentHostNoLines | src/commands/mod.rs:42-43 | a host that does not occur in the text yields no lines in either mode |
| LegacyAdd.Appended | src/commands/mod.rs:77 | the new text extends the old text |
| LegacyAdd.Present | src/commands/mod.rs:60-62 | the refusal test `matches.len() > 0`: true exactly when some line of the text matches the name exactly |
| LegacyAdd.Run | src/commands/mod.rs:57-80 | it refuses exactly when some name is present, and reports the first such name with its matching lines; otherwise the new text is `Appended` |
| LegacyAdd.AppendedLines | src/commands/mod.rs:73-77 | the new text's lines are the old ones, then the comment line, then the host line |
| LegacyAdd.AppendedNamesMatch | src/commands/mod.rs:59-62 | every added name matches the new text exactly, so running `add` again is refused |

## Left out

- The `hosts_parser` crate is not part of this model. `HostsLine` is a minimal stand-in: it splits words at spaces only (not tabs) and has no notion of invalid addresses.
- Reading, backing up and writing files (`load`, `from_file`, `must_load`, `save`, `read_hosts`, `backup_hosts`, `write_hosts`, `maybe_save`) are I/O. The model takes the text or the loaded file in and gives the new lines or text back.
- Console messages are left out, including "line not found" in `disable_host` and `enable_host`. The `found` result of `DisableHost` and `EnableHost` models whether that message is printed.
- The `show` and `check` commands of `src/commands.rs` only print what the modelled queries return. `update` downloads a new release over the network. `src/cli.rs` and `src/main.rs` only parse arguments and dispatch.
- The `update` flag of `add` and `add_local` is modelled as a boolean parameter. src/commands.rs:25 and :72 read a field `update` of `CmdAdd` and `CmdAddLocal`, but those structs in src/cli.rs:62-75 declare no such field and the command line offers no `--update` option, so as written these two functions do not compile against src/cli.rs. The model follows src/commands.rs and lets the caller pass the flag.
- FileUtils.ExactMatch: the needle is read literally. Regex metacharacters in a host name (such as `.`) are not interpreted, so a name like `a.b` does not match `axb` here. A name that makes the pattern malformed (an unbalanced `(`, say) makes `Regex::new(..).unwrap()` panic in the source (src/file_utils.rs:4, src/commands/mod.rs:29); the model never panics there and treats that name as literal text.
- HostsFile.EnableFirstDisabled: `comment[1..]` is modelled as dropping the first character. The byte slicing of a UTF-8 string, which panics inside a multi-byte character, is not modelled. The leading `#` is always one byte.
- HostsFile.ManagedHostsFile.GetMatches, GetMultiMatch, HasHost, HasDisabledHost, WithoutComments and Contents only delegate to the pure functions above. Their contracts are stated on those functions.
- Commands.Add: when the outcome is `Panicked`, the contract says nothing about the lines, because the process aborts before saving.
- Commands.AddLocal: when the outcome is `Panicked`, the contract says nothing about the lines, for the same reason. Like the source, it keeps the update-path defect described below.
- Commands.Add: the `Panicked` outcome for a host line that holds a line break comes from the stand-in parser. The real crate may reject other text as well.

## Findings

| source | as written | input that shows it | evidently intended | confidence | as-written member | corrected member |
|---|---|---|---|---|---|---|
| src/commands.rs:53-56 | when `update` is set, every requested name is passed to `remove_host`, whose `unwrap` panics when that name is no longer on any host line | the file holds the line `127.0.0.1 a b`, and `add` is called with ip `127.0.0.1`, names `a,b` and `update == true`: removing `a` deletes the shared line, then `remove_host("b")` panics. The same happens whenever one requested name is on no host line, such as names `a,c` with a new alias `c` (`Commands.UpdateWithDeadNamePanics`) | replace every line that lists a requested name with the new host line | high, not executed | Commands.UpdateSharedLinePanics | Commands.AddPurging |

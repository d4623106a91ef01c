/** The edit commands of src/commands.rs: each one inspects the hosts file,
    then either edits it in place or reports why it did not. Reading and
    saving the file and the console messages are outside the model; a command
    here receives the loaded file and returns the outcome it would report. */
module Commands {
  import opened Collections
  import opened Strings
  import opened HostsLine
  import opened HostsFile
  import opened FileUtils

  /** What a command reports. `Panicked` stands for an `unwrap` that fails:
      the process aborts and nothing is saved. */
  datatype Outcome =
    | AlreadyPresent(matches: seq<string>)  // `add` refused: these names already match
    | Added(line: string)                   // `add` appended this host line
    | Updated(line: string)                 // `add` with `update` replaced the names' lines by this one
    | HostRemoved
    | HostDisabled
    | AlreadyDisabled
    | HostEnabled
    | AlreadyEnabled
    | NotInHostsFile
    | Panicked

  /** A command's outcome together with the lines it leaves in the file. */
  datatype Effect = Effect(outcome: Outcome, lines: seq<Line>)

  /** The address `add_local` uses. */
  const LocalIp: string := "127.0.0.1"

  /** The comment `add` writes when none is given. */
  const DefaultComment: string := "Added by hostman"

  /** The comment words joined by spaces, or the default when that is empty. */
  function ComputedComment(comment: seq<string>): (c: string)
    ensures c != ""
    ensures Join(comment, " ") != "" ==> c == Join(comment, " ")
    ensures Join(comment, " ") == "" ==> c == DefaultComment
  {
    var joined := Join(comment, " ");
    if joined == "" then DefaultComment else joined
  }

  /** The line `add` appends: `<ip> <names joined by spaces> # <comment>`;
      every requested name matches it exactly. */
  function HostLine(ip: string, names: seq<string>, comment: seq<string>): (line: string)
    ensures forall k :: 0 <= k < |names| ==> ExactMatch(names[k], line)
  {
    HostLineShowsNames(ip, names, ComputedComment(comment));
    ip + " " + Join(names, " ") + " # " + ComputedComment(comment)
  }

  /** Each name of `<ip> <names> # <c>` is delimited by spaces where it stands. */
  lemma HostLineShowsNames(ip: string, names: seq<string>, c: string)
    ensures forall k :: 0 <= k < |names| ==> ExactMatch(names[k], ip + " " + Join(names, " ") + " # " + c)
  {
    var tail := " # " + c;
    var pre := ip + " ";
    assert ip + " " + Join(names, " ") + " # " + c == pre + (Join(names, " ") + tail);
    forall k | 0 <= k < |names|
      ensures ExactMatch(names[k], pre + (Join(names, " ") + tail))
    {
      JoinedPartsMatch(names, k, tail);
      var i: nat :| DelimitedAt(names[k], Join(names, " ") + tail, i);
      ShiftDelimited(pre, Join(names, " ") + tail, names[k], i);
    }
  }

  /** The host line parses back into the address, exactly the requested names,
      and the computed comment behind `# `. */
  lemma HostLineParses(ip: string, names: seq<string>, comment: seq<string>)
    requires IsToken(ip) && names != []
    requires forall k :: 0 <= k < |names| ==> IsToken(names[k])
    requires '\n' !in ComputedComment(comment)
    ensures FromString(HostLine(ip, names, comment)) ==
      Some(Entry(ip, names, Some("# " + ComputedComment(comment))))
  {
    var c := ComputedComment(comment);
    var l := Entry(ip, names, Some("# " + c));
    var tokens := [ip] + names;
    assert tokens[0] == ip && tokens[1..] == names;
    assert Join(tokens, " ") == ip + " " + Join(names, " ");
    assert Render(l) == Join(tokens, " ") + " " + ("# " + c);
    assert Join(tokens, " ") + " " + ("# " + c) == ip + " " + Join(names, " ") + " # " + c;
    assert Render(l) == HostLine(ip, names, comment);
    FromStringOfRender(l);
  }

  /** The `remove_host` calls of the update path, one per requested name in
      order; `None` when a name is not live at its turn and the `unwrap` fails. */
  function RemoveInTurn(lines: seq<Line>, names: seq<string>): (r: Option<seq<Line>>)
    ensures r.Some? ==> |r.value| == |lines| - |names|
    ensures r.Some? && AllWellFormed(lines) ==> AllWellFormed(r.value)
    ensures r.Some? ==> IsSubsequence(r.value, lines)
    decreases names
  {
    if names == [] then SubsequenceOfSelf(lines); Some(lines)
    else if !Live(lines, names[0]) then None
    else
      var i := FirstLive(lines, names[0]).value;
      var next := RemoveFirstLive(lines, names[0]);
      assert next == lines[..i] + lines[i + 1..];
      DropOneIsSubsequence(lines, i);
      var r := RemoveInTurn(next, names[1..]);
      if r.Some? then SubsequenceTransitive(r.value, next, lines); r else r
  }

  /** A requested name that is not live makes the removals fail: earlier
      removals never bring it back, so its own `remove_host` panics. */
  lemma {:induction false} NotLiveFails(lines: seq<Line>, names: seq<string>, name: string)
    requires name in names && !Live(lines, name)
    ensures RemoveInTurn(lines, names).None?
    decreases names
  {
    if names[0] != name && Live(lines, names[0]) {
      RemoveKeepsAbsent(lines, names[0], name);
      RemoveInTurnStep(lines, names);
      NotLiveFails(RemoveFirstLive(lines, names[0]), names[1..], name);
    }
  }

  /** The removals go on with the rest of the names once the first is removed. */
  lemma RemoveInTurnStep(lines: seq<Line>, names: seq<string>)
    requires names != [] && Live(lines, names[0])
    ensures RemoveInTurn(lines, names) == RemoveInTurn(RemoveFirstLive(lines, names[0]), names[1..])
  {
  }

  /** A line lists at most one entry of `names`; a name requested twice counts
      as two entries. */
  predicate ListsAtMostOne(l: Line, names: seq<string>) {
    forall i, j :: 0 <= i < j < |names| ==> !(names[i] in Hosts(l) && names[j] in Hosts(l))
  }

  /** No line lists two entries of the requested names. */
  predicate Separate(lines: seq<Line>, names: seq<string>) {
    forall l :: 0 <= l < |lines| ==> ListsAtMostOne(lines[l], names)
  }

  /** After removing line `i`, each remaining line is an old line. */
  lemma RemovedLineShift(lines: seq<Line>, host: string, l: nat)
    requires Live(lines, host) && l < |lines| - 1
    ensures var i := FirstLive(lines, host).value;
      RemoveFirstLive(lines, host)[l] == (if l < i then lines[l] else lines[l + 1])
  {
    var r := RemoveFirstLive(lines, host);
    var i := FirstLive(lines, host).value;
    if l < i {
      assert r[l] == r[..i][l];
    } else {
      assert r[l] == r[i..][l - i];
    }
  }

  /** Removing the first line of the first requested name keeps the rest of
      the names separate. */
  lemma RemoveKeepsSeparate(lines: seq<Line>, names: seq<string>)
    requires names != [] && Live(lines, names[0]) && Separate(lines, names)
    ensures Separate(RemoveFirstLive(lines, names[0]), names[1..])
  {
    var r := RemoveFirstLive(lines, names[0]);
    var i := FirstLive(lines, names[0]).value;
    forall l | 0 <= l < |r|
      ensures ListsAtMostOne(r[l], names[1..])
    {
      RemovedLineShift(lines, names[0], l);
      var m := if l < i then l else l + 1;
      assert ListsAtMostOne(lines[m], names);
      AtMostOneOfTail(lines[m], names);
    }
  }

  /** A line that lists at most one of `names` lists at most one of its tail. */
  lemma AtMostOneOfTail(l: Line, names: seq<string>)
    requires names != [] && ListsAtMostOne(l, names)
    ensures ListsAtMostOne(l, names[1..])
  {
    forall a, b | 0 <= a < b < |names[1..]|
      ensures names[1..][a] == names[a + 1] && names[1..][b] == names[b + 1]
    {
    }
  }

  /** Removing the first line of `host` keeps `name` live when that line does
      not list it. */
  lemma RemoveKeepsOthersLive(lines: seq<Line>, host: string, name: string)
    requires Live(lines, host) && Live(lines, name)
    requires name !in Hosts(lines[FirstLive(lines, host).value])
    ensures Live(RemoveFirstLive(lines, host), name)
  {
    var r := RemoveFirstLive(lines, host);
    var i := FirstLive(lines, host).value;
    var l :| 0 <= l < |lines| && name in Hosts(lines[l]);
    assert l != i;
    var m := if l < i then l else l - 1;
    RemovedLineShift(lines, host, m);
    assert name in Hosts(r[m]);
  }

  /** When every requested name is live and no line lists two of them, each
      `remove_host` finds its line and the update path does not panic. */
  lemma {:induction false} SeparateLinesSucceed(lines: seq<Line>, names: seq<string>)
    requires Separate(lines, names)
    requires forall k :: 0 <= k < |names| ==> Live(lines, names[k])
    ensures RemoveInTurn(lines, names).Some?
    decreases names
  {
    if names != [] {
      assert Live(lines, names[0]);
      var r := RemoveFirstLive(lines, names[0]);
      var rest := names[1..];
      RemoveKeepsSeparateLive(lines, names);
      SeparateLinesSucceed(r, rest);
      assert RemoveInTurn(lines, names) == RemoveInTurn(r, rest);
    }
  }

  /** One step of `SeparateLinesSucceed`: after the first removal the
      remaining names are still live and separate. */
  lemma RemoveKeepsSeparateLive(lines: seq<Line>, names: seq<string>)
    requires names != [] && Separate(lines, names)
    requires forall k :: 0 <= k < |names| ==> Live(lines, names[k])
    ensures Live(lines, names[0])
    ensures var r := RemoveFirstLive(lines, names[0]);
      Separate(r, names[1..]) && forall k :: 0 <= k < |names[1..]| ==> Live(r, names[1..][k])
  {
    assert Live(lines, names[0]);
    var r := RemoveFirstLive(lines, names[0]);
    var i := FirstLive(lines, names[0]).value;
    RemoveKeepsSeparate(lines, names);
    assert names[0] in Hosts(lines[i]) && ListsAtMostOne(lines[i], names);
    forall k | 0 <= k < |names[1..]|
      ensures Live(r, names[1..][k])
    {
      assert names[1..][k] == names[k + 1] && Live(lines, names[k + 1]);
      assert names[k + 1] !in Hosts(lines[i]);
      RemoveKeepsOthersLive(lines, names[0], names[k + 1]);
    }
  }

  /** The removals of the update path only take lines that list a requested
      name: when they all succeed, the unaffected lines are still there, with
      their multiplicity and order. */
  lemma {:induction false} RemoveInTurnKeepsUnaffected(lines: seq<Line>, all: seq<string>, ns: seq<string>)
    requires forall k :: 0 <= k < |ns| ==> ns[k] in all
    ensures RemoveInTurn(lines, ns).Some? ==>
      Unaffected(RemoveInTurn(lines, ns).value, all) == Unaffected(lines, all)
    decreases ns
  {
    if ns != [] && Live(lines, ns[0]) {
      var k :| 0 <= k < |all| && all[k] == ns[0];
      PurgeStep(lines, all, k);
      RemoveInTurnKeepsUnaffected(RemoveFirstLive(lines, ns[0]), all, ns[1..]);
    }
  }

  /** `add` on the loaded lines: split the names at commas, refuse when one
      already matches exactly and `update` is off, otherwise (on the update
      path, after removing each name's first line) append the host line. */
  function AddResult(lines: seq<Line>, ip: string, names: string, comment: seq<string>, update: bool): (e: Effect)
    ensures e.outcome.AlreadyPresent? || e.outcome.Added? || e.outcome.Updated? || e.outcome.Panicked?
    ensures e.outcome.AlreadyPresent? ==> !update && e.outcome.matches != []
    ensures e.outcome.AlreadyPresent? ==> e.outcome.matches == MultiMatch(lines, Split(names, ','), Exact)
    ensures e.outcome.Added? ==> MultiMatch(lines, Split(names, ','), Exact) == []
    ensures e.outcome.Updated? ==> update && MultiMatch(lines, Split(names, ','), Exact) != []
    ensures e.outcome.AlreadyPresent? || e.outcome.Panicked? ==> e.lines == lines
    ensures e.outcome.Added? || e.outcome.Updated? ==>
      e.outcome.line == HostLine(ip, Split(names, ','), comment) && e.lines != [] &&
      FromString(e.outcome.line) == Some(e.lines[|e.lines| - 1])
    ensures e.outcome.Added? ==> e.lines != [] && e.lines[..|e.lines| - 1] == lines
    ensures e.outcome.Updated? ==>
      e.lines != [] && RemoveInTurn(lines, Split(names, ',')) == Some(e.lines[..|e.lines| - 1])
    ensures AllWellFormed(lines) ==> AllWellFormed(e.lines)
    ensures e.outcome.AlreadyPresent? <==> MultiMatch(lines, Split(names, ','), Exact) != [] && !update
    ensures e.outcome.Added? <==>
      MultiMatch(lines, Split(names, ','), Exact) == [] && '\n' !in HostLine(ip, Split(names, ','), comment)
    ensures e.outcome.Updated? <==>
      MultiMatch(lines, Split(names, ','), Exact) != [] && update &&
      '\n' !in HostLine(ip, Split(names, ','), comment) && RemoveInTurn(lines, Split(names, ',')).Some?
    ensures e.outcome.Panicked? <==>
      !(MultiMatch(lines, Split(names, ','), Exact) != [] && !update) &&
      ('\n' in HostLine(ip, Split(names, ','), comment) ||
       (MultiMatch(lines, Split(names, ','), Exact) != [] && RemoveInTurn(lines, Split(names, ',')).None?))
  {
    var all := Split(names, ',');
    var matches := MultiMatch(lines, all, Exact);
    if matches != [] && !update then Effect(AlreadyPresent(matches), lines)
    else
      var line := HostLine(ip, all, comment);
      var rest := if matches != [] then RemoveInTurn(lines, all) else Some(lines);
      if rest.None? || '\n' in line then Effect(Panicked, lines)
      else
        var l := FromString(line).value;
        AppendKeepsWellFormed(rest.value, l);
        assert (rest.value + [l])[..|rest.value|] == rest.value;
        Effect(if matches != [] then Updated(line) else Added(line), rest.value + [l])
  }

  /** Appending a well-formed line to well-formed lines keeps them well formed. */
  lemma AppendKeepsWellFormed(lines: seq<Line>, l: Line)
    ensures AllWellFormed(lines) && WellFormed(l) ==> AllWellFormed(lines + [l])
  {
  }

  /** The update loop of `add`: `remove_host` for each name in turn; `ok` is
      false when a name is not live at its turn and the `unwrap` fails. */
  method RemoveEachHost(f: ManagedHostsFile, names: seq<string>) returns (ok: bool)
    requires f.Valid()
    modifies f`lines
    ensures f.Valid()
    ensures ok == RemoveInTurn(old(f.lines), names).Some?
    ensures ok ==> f.lines == RemoveInTurn(old(f.lines), names).value
  {
    var k := 0;
    while k < |names|
      invariant 0 <= k <= |names|
      invariant f.Valid()
      invariant RemoveInTurn(old(f.lines), names) == RemoveInTurn(f.lines, names[k..])
    {
      assert names[k..][0] == names[k] && names[k..][1..] == names[k + 1..];
      if !f.HasHost(names[k]) {
        return false;
      }
      f.RemoveHost(names[k]);
      k := k + 1;
    }
    assert names[k..] == [];
    ok := true;
  }

  /** `add`: the method the program runs, proved to act as `AddResult`. */
  method Add(f: ManagedHostsFile, ip: string, names: string, comment: seq<string>, update: bool)
    returns (outcome: Outcome)
    requires f.Valid()
    modifies f`lines
    ensures f.Valid()
    ensures outcome == AddResult(old(f.lines), ip, names, comment, update).outcome
    ensures outcome != Panicked ==> f.lines == AddResult(old(f.lines), ip, names, comment, update).lines
  {
    var allNames := Split(names, ',');
    var matches := f.GetMultiMatch(allNames, Exact);
    if matches != [] && !update {
      return AlreadyPresent(matches);
    }
    var hostLine := HostLine(ip, allNames, comment);
    if matches != [] {
      var ok := RemoveEachHost(f, allNames);
      if !ok {
        return Panicked;
      }
    }
    if '\n' in hostLine {
      return Panicked;
    }
    f.AddLine(hostLine);
    outcome := if matches != [] then Updated(hostLine) else Added(hostLine);
  }

  /** `add_local`: `add` with the loopback address. */
  method AddLocal(f: ManagedHostsFile, names: string, comment: seq<string>, update: bool)
    returns (outcome: Outcome)
    requires f.Valid()
    modifies f`lines
    ensures f.Valid()
    ensures outcome == AddResult(old(f.lines), LocalIp, names, comment, update).outcome
    ensures outcome != Panicked ==> f.lines == AddResult(old(f.lines), LocalIp, names, comment, update).lines
  {
    outcome := Add(f, LocalIp, names, comment, update);
  }

  /** Without `update`, a name that already matches makes `add` refuse and
      leave the lines as they were. */
  lemma AddRefusesPresentName(lines: seq<Line>, ip: string, names: string, comment: seq<string>, name: string)
    ensures name in Split(names, ',') && Matches(lines, name, Exact) != [] ==>
      AddResult(lines, ip, names, comment, false).outcome.AlreadyPresent? &&
      name in AddResult(lines, ip, names, comment, false).outcome.matches &&
      AddResult(lines, ip, names, comment, false).lines == lines
  {
    var all := Split(names, ',');
    if name in all && Matches(lines, name, Exact) != [] {
      var k :| 0 <= k < |all| && all[k] == name;
      assert all[k] in MultiMatch(lines, all, Exact);
    }
  }

  /** When `add` appends without updating, none of the requested names was
      live before, and the file gains exactly the parsed host line at its end. */
  lemma AddedNamesWereAbsent(lines: seq<Line>, ip: string, names: string, comment: seq<string>, update: bool)
    requires AddResult(lines, ip, names, comment, update).outcome.Added?
    ensures forall k :: 0 <= k < |Split(names, ',')| ==> !Live(lines, Split(names, ',')[k])
    ensures AddResult(lines, ip, names, comment, update).lines ==
      lines + [FromString(HostLine(ip, Split(names, ','), comment)).value]
  {
    var all := Split(names, ',');
    assert MultiMatch(lines, all, Exact) == [];
    forall k | 0 <= k < |all|
      ensures !Live(lines, all[k])
    {
      LiveHostMatches(lines, all[k]);
    }
  }

  /** A successful update keeps only lines of the old file, in their order,
      and among them every line that lists none of the requested names: all
      the lines the corrected `AddPurging` keeps, and possibly more. */
  lemma UpdateKeepsUnaffected(lines: seq<Line>, ip: string, names: string, comment: seq<string>, update: bool)
    ensures var e := AddResult(lines, ip, names, comment, update);
      e.outcome.Updated? ==>
        IsSubsequence(e.lines[..|e.lines| - 1], lines) &&
        Unaffected(e.lines[..|e.lines| - 1], Split(names, ',')) == Unaffected(lines, Split(names, ','))
  {
    var all := Split(names, ',');
    RemoveInTurnKeepsUnaffected(lines, all, all);
  }

  /** A requested name that is live makes the exact multi-match non-empty. */
  lemma LiveNameMatched(lines: seq<Line>, all: seq<string>, k: nat)
    requires k < |all| && Live(lines, all[k])
    ensures MultiMatch(lines, all, Exact) != []
  {
    LiveHostMatches(lines, all[k]);
  }

  /** Updating a host line with the names it already carries panics: removing
      the first name deletes the shared line, so the second name is no longer
      live when its `remove_host` comes. The line may carry any comment, so
      this covers the line `<ip> a b # <comment>` that `add` itself writes. */
  lemma UpdateSharedLinePanics(lines: seq<Line>, ip: string, a: string, b: string, c: Option<string>, comment: seq<string>)
    requires IsToken(ip) && IsToken(a) && IsToken(b) && ',' !in a && ',' !in b
    requires lines == [Entry(ip, [a, b], c)]
    ensures Live(lines, a) && Live(lines, b)
    ensures AddResult(lines, ip, a + "," + b, comment, true).outcome == Panicked
  {
    var names := a + "," + b;
    assert names == a + [','] + b;
    SplitPair(a, b, ',');
    var all := Split(names, ',');
    assert all == [a, b];
    assert lines[0].names == [a, b];
    assert Live(lines, a) && Live(lines, b);
    LiveNameMatched(lines, all, 0);
    assert RemoveFirstLive(lines, a) == [];
    assert all[1..] == [b];
    assert RemoveInTurn(lines, all) == None;
  }

  /** An update panics whenever the exact search finds some requested name
      but one of the names is on no host line, such as a new alias or a name
      that only a comment mentions. */
  lemma UpdateWithDeadNamePanics(lines: seq<Line>, ip: string, names: string, comment: seq<string>, k: nat)
    requires k < |Split(names, ',')| && !Live(lines, Split(names, ',')[k])
    requires MultiMatch(lines, Split(names, ','), Exact) != []
    ensures AddResult(lines, ip, names, comment, true).outcome == Panicked
  {
    NotLiveFails(lines, Split(names, ','), Split(names, ',')[k]);
  }

  /** Whether a line lists none of `names`. */
  predicate ListsNone(l: Line, names: seq<string>) {
    forall k :: 0 <= k < |names| ==> names[k] !in Hosts(l)
  }

  /** The lines that list none of `names`, in file order: what the corrected
      update keeps. */
  function Unaffected(lines: seq<Line>, names: seq<string>): (r: seq<Line>)
    ensures forall k :: 0 <= k < |names| ==> !Live(r, names[k])
    ensures forall j :: 0 <= j < |lines| && ListsNone(lines[j], names) ==> lines[j] in r
    ensures forall j {:trigger multiset(r)[lines[j]]} :: 0 <= j < |lines| ==>
      multiset(r)[lines[j]] == if ListsNone(lines[j], names) then multiset(lines)[lines[j]] else 0
    ensures IsSubsequence(r, lines)
  {
    FilterCounts((l: Line) => ListsNone(l, names), lines);
    Filter((l: Line) => ListsNone(l, names), lines)
  }

  /** Removing a line that lists a requested name keeps the unaffected lines. */
  lemma PurgeStep(lines: seq<Line>, names: seq<string>, k: nat)
    requires k < |names| && Live(lines, names[k])
    ensures Unaffected(RemoveFirstLive(lines, names[k]), names) == Unaffected(lines, names)
  {
    var i := FirstLive(lines, names[k]).value;
    assert RemoveFirstLive(lines, names[k]) == lines[..i] + lines[i + 1..];
    assert names[k] in Hosts(lines[i]) && !ListsNone(lines[i], names);
    FilterWithoutRejected((l: Line) => ListsNone(l, names), lines, i);
  }

  /** Removing a line never makes a name live. */
  lemma RemoveKeepsAbsent(lines: seq<Line>, host: string, name: string)
    requires Live(lines, host) && !Live(lines, name)
    ensures !Live(RemoveFirstLive(lines, host), name)
  {
    var r := RemoveFirstLive(lines, host);
    var i := FirstLive(lines, host).value;
    forall j | 0 <= j < |r|
      ensures name !in Hosts(r[j])
    {
      if j < i {
        assert r[j] == r[..i][j] == lines[j];
      } else {
        assert r[j] == r[i..][j - i] == lines[j + 1];
      }
    }
  }

  /** Once no requested name is live, every line is unaffected. */
  lemma AllPurged(lines: seq<Line>, names: seq<string>)
    requires forall k :: 0 <= k < |names| ==> !Live(lines, names[k])
    ensures Unaffected(lines, names) == lines
  {
    FilterKeepsAll((l: Line) => ListsNone(l, names), lines);
  }

  /** Remove every line that lists one of `names`, one `remove_host` at a time. */
  method PurgeNames(f: ManagedHostsFile, names: seq<string>)
    requires f.Valid()
    modifies f`lines
    ensures f.Valid()
    ensures f.lines == Unaffected(old(f.lines), names)
  {
    var k := 0;
    while k < |names|
      invariant 0 <= k <= |names|
      invariant f.Valid()
      invariant Unaffected(f.lines, names) == Unaffected(old(f.lines), names)
      invariant forall j :: 0 <= j < k ==> !Live(f.lines, names[j])
    {
      while f.HasHost(names[k])
        invariant f.Valid()
        invariant Unaffected(f.lines, names) == Unaffected(old(f.lines), names)
        invariant forall j :: 0 <= j < k ==> !Live(f.lines, names[j])
        decreases |f.lines|
      {
        ghost var current := f.lines;
        PurgeStep(current, names, k);
        forall j | 0 <= j < k
          ensures !Live(RemoveFirstLive(current, names[k]), names[j])
        {
          RemoveKeepsAbsent(current, names[k], names[j]);
        }
        f.RemoveHost(names[k]);
      }
      k := k + 1;
    }
    AllPurged(f.lines, names);
  }

  /** Off the update path nothing is purged: when no requested name matches,
      every line is unaffected, so the corrected `add` appends as `add` does. */
  lemma FreshNamesUnaffected(lines: seq<Line>, names: seq<string>)
    requires MultiMatch(lines, names, Exact) == []
    ensures Unaffected(lines, names) == lines
  {
    forall k | 0 <= k < |names|
      ensures !Live(lines, names[k])
    {
      LiveHostMatches(lines, names[k]);
    }
    AllPurged(lines, names);
  }

  /** `add` as evidently intended: on the update path, every line listing a
      requested name is removed, whether or not an earlier removal already
      took it, so the update cannot panic on a name that is no longer live;
      the file ends up as the unaffected lines followed by the host line. */
  method AddPurging(f: ManagedHostsFile, ip: string, names: string, comment: seq<string>, update: bool)
    returns (outcome: Outcome)
    requires f.Valid()
    modifies f`lines
    ensures f.Valid()
    ensures var all := Split(names, ',');
      var matches := MultiMatch(old(f.lines), all, Exact);
      var line := HostLine(ip, all, comment);
      if matches != [] && !update then
        outcome == AlreadyPresent(matches) && f.lines == old(f.lines)
      else if '\n' in line then
        outcome == Panicked
      else
        outcome == (if matches != [] then Updated(line) else Added(line)) &&
        f.lines == Unaffected(old(f.lines), all) + [FromString(line).value]
  {
    var allNames := Split(names, ',');
    var matches := f.GetMultiMatch(allNames, Exact);
    if matches != [] && !update {
      return AlreadyPresent(matches);
    }
    var hostLine := HostLine(ip, allNames, comment);
    if '\n' in hostLine {
      return Panicked;
    }
    PurgeNames(f, allNames);
    f.AddLine(hostLine);
    outcome := if matches != [] then Updated(hostLine) else Added(hostLine);
  }

  /** `remove`: delete the first line listing `host`, only when it is live. */
  method Remove(f: ManagedHostsFile, host: string) returns (outcome: Outcome)
    requires f.Valid()
    modifies f`lines
    ensures f.Valid()
    ensures old(f.HasHost(host)) ==> outcome == HostRemoved && f.lines == RemoveFirstLive(old(f.lines), host)
    ensures !old(f.HasHost(host)) ==> outcome == NotInHostsFile && f.lines == old(f.lines)
  {
    if !f.HasHost(host) {
      return NotInHostsFile;
    }
    f.RemoveHost(host);
    outcome := HostRemoved;
  }

  /** `disable`: comment out the first line listing `host`, only when it is
      live; otherwise tell an already disabled host from an absent one. The
      guard means `disable_host` always finds its line here. */
  method Disable(f: ManagedHostsFile, host: string) returns (outcome: Outcome)
    requires f.Valid()
    modifies f`lines
    ensures f.Valid()
    ensures old(f.HasHost(host)) ==> outcome == HostDisabled && f.lines == DisableFirstLive(old(f.lines), host)
    ensures !old(f.HasHost(host)) ==>
      f.lines == old(f.lines) && outcome == (if old(f.HasDisabledHost(host)) then AlreadyDisabled else NotInHostsFile)
  {
    if !f.HasHost(host) {
      if f.HasDisabledHost(host) {
        return AlreadyDisabled;
      }
      return NotInHostsFile;
    }
    var found := f.DisableHost(host);
    assert found;
    outcome := HostDisabled;
  }

  /** `enable`: re-parse the first comment mentioning `host`, only when there is
      one; otherwise tell an already enabled host from an absent one. */
  method Enable(f: ManagedHostsFile, host: string) returns (outcome: Outcome)
    requires f.Valid()
    modifies f`lines
    ensures f.Valid()
    ensures old(f.HasDisabledHost(host)) ==> outcome == HostEnabled && f.lines == EnableFirstDisabled(old(f.lines), host)
    ensures !old(f.HasDisabledHost(host)) ==>
      f.lines == old(f.lines) && outcome == (if old(f.HasHost(host)) then AlreadyEnabled else NotInHostsFile)
  {
    if !f.HasDisabledHost(host) {
      if f.HasHost(host) {
        return AlreadyEnabled;
      }
      return NotInHostsFile;
    }
    var found := f.EnableHost(host);
    assert found;
    outcome := HostEnabled;
  }
}

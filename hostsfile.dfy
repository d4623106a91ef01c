/** The managed hosts file of src/hostsfile.rs: an ordered list of lines with
    queries (matches, live and disabled hosts, live lines, rendering) and
    in-place edits (append, remove, disable, enable) that act on the first
    matching line. The queries are specified on the line sequence; the class
    `ManagedHostsFile` owns that sequence and edits it in place. */
module HostsFile {
  import opened Collections
  import opened Strings
  import opened FileUtils
  import opened HostsLine

  datatype MatchType = Partial | Exact

  /** `MatchType::from_bool`: `true` selects exact matching. */
  function MatchTypeFromBool(exact: bool): (m: MatchType)
    ensures m == Exact <==> exact
  {
    if exact then Exact else Partial
  }

  /** The class invariant: every line is one the parser can produce. */
  ghost predicate AllWellFormed(lines: seq<Line>) {
    forall k :: 0 <= k < |lines| ==> WellFormed(lines[k])
  }

  /** The test of `get_matches` on one line, applied to the rendered text; a
      match in either mode is an occurrence of `host` in that text. */
  function LineMatches(l: Line, host: string, mode: MatchType): (b: bool)
    ensures b ==> Contains(Render(l), host)
  {
    match mode
    case Exact => ExactMatch(host, Render(l))
    case Partial => Contains(Render(l), host)
  }

  /** `get_matches`: the lines whose rendering matches `host`, in file order. */
  function Matches(lines: seq<Line>, host: string, mode: MatchType): (r: seq<Line>)
    ensures forall k :: 0 <= k < |r| ==> r[k] in lines && LineMatches(r[k], host, mode)
    ensures forall k :: 0 <= k < |lines| && LineMatches(lines[k], host, mode) ==> lines[k] in r
    ensures forall k {:trigger multiset(r)[lines[k]]} :: 0 <= k < |lines| ==>
      multiset(r)[lines[k]] == if LineMatches(lines[k], host, mode) then multiset(lines)[lines[k]] else 0
    ensures IsSubsequence(r, lines)
  {
    FilterCounts((l: Line) => LineMatches(l, host, mode), lines);
    Filter((l: Line) => LineMatches(l, host, mode), lines)
  }

  /** A line repeated in the file is reported once per occurrence. */
  lemma MatchesKeepsRepeats(l: Line, host: string, mode: MatchType)
    requires LineMatches(l, host, mode)
    ensures Matches([l, l], host, mode) == [l, l]
  {
    var r := Matches([l, l], host, mode);
    assert [l, l][0] == l;
    assert multiset(r)[[l, l][0]] == multiset([l, l])[l] == 2;
    assert |r| == 2 by {
      assert |r| <= 2;
      assert |multiset(r)| == |r|;
    }
    assert r[0] in [l, l] && r[1] in [l, l];
  }

  /** Exact matches are among the partial matches, in the same order. */
  lemma ExactMatchesArePartial(lines: seq<Line>, host: string)
    ensures IsSubsequence(Matches(lines, host, Exact), Matches(lines, host, Partial))
  {
    FilterNarrower((l: Line) => LineMatches(l, host, Exact), (l: Line) => LineMatches(l, host, Partial), lines);
  }

  /** Every host name of a line matches its rendering exactly. */
  lemma HostsMatchExactly(l: Line, k: nat)
    requires k < |Hosts(l)|
    ensures ExactMatch(Hosts(l)[k], Render(l))
  {
    var tokens := [l.address] + l.names;
    var tail := if l.comment.Some? then " " + l.comment.value else "";
    JoinedPartsMatch(tokens, k + 1, tail);
    assert tokens[k + 1] == Hosts(l)[k];
  }

  /** A live host always has an exact match, so an empty exact search means the host is not live. */
  lemma LiveHostMatches(lines: seq<Line>, host: string)
    ensures Live(lines, host) ==> Matches(lines, host, Exact) != []
  {
    if Live(lines, host) {
      var j :| 0 <= j < |lines| && host in Hosts(lines[j]);
      var k :| 0 <= k < |Hosts(lines[j])| && Hosts(lines[j])[k] == host;
      HostsMatchExactly(lines[j], k);
    }
  }

  /** `get_multi_match`: the requested names with at least one match, in request order. */
  function MultiMatch(lines: seq<Line>, names: seq<string>, mode: MatchType): (r: seq<string>)
    ensures forall k :: 0 <= k < |r| ==> r[k] in names && Matches(lines, r[k], mode) != []
    ensures forall k :: 0 <= k < |names| && Matches(lines, names[k], mode) != [] ==> names[k] in r
    ensures forall k {:trigger multiset(r)[names[k]]} :: 0 <= k < |names| ==>
      multiset(r)[names[k]] == if Matches(lines, names[k], mode) != [] then multiset(names)[names[k]] else 0
    ensures IsSubsequence(r, names)
  {
    FilterCounts((n: string) => Matches(lines, n, mode) != [], names);
    Filter((n: string) => Matches(lines, n, mode) != [], names)
  }

  /** When every requested name matches, `get_multi_match` returns the request unchanged. */
  lemma MultiMatchAllFound(lines: seq<Line>, names: seq<string>, mode: MatchType)
    requires forall k :: 0 <= k < |names| ==> Matches(lines, names[k], mode) != []
    ensures MultiMatch(lines, names, mode) == names
  {
    FilterKeepsAll((n: string) => Matches(lines, n, mode) != [], names);
  }

  /** `has_host`: some line lists `host` among its host names. */
  function Live(lines: seq<Line>, host: string): (b: bool)
    ensures b <==> exists k :: 0 <= k < |lines| && host in Hosts(lines[k])
  {
    Any((l: Line) => host in Hosts(l), lines)
  }

  /** The `position` search of `remove_host` and `disable_host`. */
  function FirstLive(lines: seq<Line>, host: string): (r: Option<nat>)
    ensures r.Some? <==> Live(lines, host)
    ensures r.Some? ==> r.value < |lines| && host in Hosts(lines[r.value])
    ensures r.Some? ==> forall j :: 0 <= j < r.value ==> host !in Hosts(lines[j])
  {
    Position((l: Line) => host in Hosts(l), lines)
  }

  /** The test of `has_disabled_host` on one line: its comment contains `host`. */
  predicate CommentMentions(l: Line, host: string) {
    Comment(l).Some? && Contains(Comment(l).value, host)
  }

  /** `has_disabled_host`: some line's comment contains `host` as a substring. */
  function Disabled(lines: seq<Line>, host: string): (b: bool)
    ensures b <==> exists k :: 0 <= k < |lines| && CommentMentions(lines[k], host)
  {
    Any((l: Line) => CommentMentions(l, host), lines)
  }

  /** The `position` search of `enable_host`. */
  function FirstDisabled(lines: seq<Line>, host: string): (r: Option<nat>)
    ensures r.Some? <==> Disabled(lines, host)
    ensures r.Some? ==> r.value < |lines| && CommentMentions(lines[r.value], host)
    ensures r.Some? ==> forall j :: 0 <= j < r.value ==> !CommentMentions(lines[j], host)
  {
    Position((l: Line) => CommentMentions(l, host), lines)
  }

  /** The first comment that mentions `host` is at `i` when no earlier one does. */
  lemma FirstDisabledAt(lines: seq<Line>, host: string, i: nat)
    requires i < |lines| && CommentMentions(lines[i], host)
    requires forall j :: 0 <= j < i ==> !CommentMentions(lines[j], host)
    ensures FirstDisabled(lines, host) == Some(i)
  {
  }

  /** `without_comments`: the lines that map at least one host, in file order. */
  function Uncommented(lines: seq<Line>): (r: seq<Line>)
    ensures forall k :: 0 <= k < |r| ==> r[k] in lines && Hosts(r[k]) != []
    ensures forall k :: 0 <= k < |lines| && Hosts(lines[k]) != [] ==> lines[k] in r
    ensures forall k {:trigger multiset(r)[lines[k]]} :: 0 <= k < |lines| ==>
      multiset(r)[lines[k]] == if Hosts(lines[k]) != [] then multiset(lines)[lines[k]] else 0
    ensures IsSubsequence(r, lines)
  {
    FilterCounts(HasHost, lines);
    Filter(HasHost, lines)
  }

  /** `Display`: the rendered lines joined by line breaks, with a final line break. */
  function Serialize(lines: seq<Line>): (text: string)
    ensures |text| > 0 && text[|text| - 1] == '\n'
  {
    Join(Map(Render, lines), "\n") + "\n"
  }

  /** Appending a line appends its rendering and a line break to the text. */
  lemma SerializeAppend(lines: seq<Line>, l: Line)
    ensures lines != [] ==> Serialize(lines + [l]) == Serialize(lines) + Render(l) + "\n"
    ensures lines == [] ==> Serialize(lines + [l]) == Render(l) + "\n"
  {
    assert Map(Render, lines + [l]) == Map(Render, lines) + [Render(l)];
    if lines != [] {
      JoinAppend(Map(Render, lines), Render(l), "\n");
    } else {
      assert Map(Render, lines + [l]) == [Render(l)];
    }
  }

  /** A host that does not occur in the file's text matches no line, in either mode. */
  lemma AbsentHostNoMatches(lines: seq<Line>, host: string)
    requires !Contains(Serialize(lines), host)
    ensures Matches(lines, host, Partial) == [] && Matches(lines, host, Exact) == []
  {
    var rendered := Map(Render, lines);
    var joined := Join(rendered, "\n");
    forall k | 0 <= k < |lines|
      ensures !Contains(Render(lines[k]), host)
    {
      if Contains(Render(lines[k]), host) {
        JoinContainsParts(rendered, "\n", k);
        ContainsInConcat(joined, "\n", rendered[k]);
        ContainsTransitive(Serialize(lines), Render(lines[k]), host);
      }
    }
    ExactMatchesArePartial(lines, host);
  }

  /** `remove_host` on the line sequence: the first line listing `host` is deleted. */
  function RemoveFirstLive(lines: seq<Line>, host: string): (r: seq<Line>)
    requires Live(lines, host)
    ensures |r| == |lines| - 1
    ensures var i := FirstLive(lines, host).value;
      r[..i] == lines[..i] && r[i..] == lines[i + 1..]
    ensures AllWellFormed(lines) ==> AllWellFormed(r)
  {
    var i := FirstLive(lines, host).value;
    lines[..i] + lines[i + 1..]
  }

  /** Removing a name added last, that was not live before, restores the lines. */
  lemma AddThenRemoveRestores(lines: seq<Line>, l: Line, host: string)
    requires !Live(lines, host) && host in Hosts(l)
    ensures Live(lines + [l], host)
    ensures RemoveFirstLive(lines + [l], host) == lines
  {
    var s := lines + [l];
    assert s[|lines|] == l;
    var i := FirstLive(s, host).value;
    assert i == |lines|;
    assert s[..i] == lines;
  }

  /** The comment line that `disable_host` puts in place of `l`. */
  function DisabledLine(l: Line): (d: Line)
    ensures Hosts(d) == [] && Comment(d) == Some("#" + Render(l))
  {
    FromComment("#" + Render(l))
  }

  /** Disabling a well-formed line gives a well-formed comment line. */
  lemma DisabledLineWellFormed(l: Line)
    ensures WellFormed(l) ==> WellFormed(DisabledLine(l))
  {
    if WellFormed(l) {
      FromStringOfRender(l);
    }
  }

  /** The comment of a disabled line mentions every host name of the original. */
  lemma DisabledLineMentions(l: Line, k: nat)
    requires k < |Hosts(l)|
    ensures CommentMentions(DisabledLine(l), Hosts(l)[k])
  {
    RenderShowsHosts(l, k);
    ContainsInConcat("#", Render(l), Hosts(l)[k]);
  }

  /** Enabling a disabled well-formed line gives the original line back. */
  lemma EnableDisabledLine(l: Line)
    requires WellFormed(l)
    ensures var c := Comment(DisabledLine(l)).value;
      c != "" && FromString(c[1..]) == Some(l)
  {
    assert ("#" + Render(l))[1..] == Render(l);
    FromStringOfRender(l);
  }

  /** `disable_host` on the line sequence: the first line listing `host` becomes
      a comment of itself; nothing changes when no line lists `host`. */
  function DisableFirstLive(lines: seq<Line>, host: string): (r: seq<Line>)
    ensures |r| == |lines|
    ensures FirstLive(lines, host).None? ==> r == lines
    ensures FirstLive(lines, host).Some? ==>
      var i := FirstLive(lines, host).value;
      r[i] == DisabledLine(lines[i]) && forall j :: 0 <= j < |lines| && j != i ==> r[j] == lines[j]
    ensures AllWellFormed(lines) ==> AllWellFormed(r)
  {
    match FirstLive(lines, host)
    case None => lines
    case Some(i) =>
      DisabledLineWellFormed(lines[i]);
      lines[i := DisabledLine(lines[i])]
  }

  /** A slot holding a line without hosts counts for liveness as a deleted slot. */
  lemma LiveWithoutSlot(lines: seq<Line>, i: nat, x: Line, name: string)
    requires i < |lines| && Hosts(x) == []
    ensures Live(lines[i := x], name) <==> Live(lines[..i] + lines[i + 1..], name)
  {
    if Live(lines[i := x], name) {
      LiveSurvivesDeletion(lines, i, x, name);
    }
    if Live(lines[..i] + lines[i + 1..], name) {
      LiveSurvivesReplacement(lines, i, x, name);
    }
  }

  /** A name live after a slot is emptied is live once that slot is deleted. */
  lemma LiveSurvivesDeletion(lines: seq<Line>, i: nat, x: Line, name: string)
    requires i < |lines| && Hosts(x) == [] && Live(lines[i := x], name)
    ensures Live(lines[..i] + lines[i + 1..], name)
  {
    var r := lines[i := x];
    var rest := lines[..i] + lines[i + 1..];
    var k :| 0 <= k < |r| && name in Hosts(r[k]);
    if k < i {
      assert rest[k] == r[k];
      assert 0 <= k < |rest| && name in Hosts(rest[k]);
    } else {
      assert k != i;
      assert rest[k - 1] == r[k];
      assert 0 <= k - 1 < |rest| && name in Hosts(rest[k - 1]);
    }
  }

  /** A name live once a slot is deleted is live when that slot is emptied instead. */
  lemma LiveSurvivesReplacement(lines: seq<Line>, i: nat, x: Line, name: string)
    requires i < |lines| && Live(lines[..i] + lines[i + 1..], name)
    ensures Live(lines[i := x], name)
  {
    var r := lines[i := x];
    var rest := lines[..i] + lines[i + 1..];
    var k :| 0 <= k < |rest| && name in Hosts(rest[k]);
    if k < i {
      assert r[k] == rest[k];
      assert 0 <= k < |r| && name in Hosts(r[k]);
    } else {
      assert r[k + 1] == rest[k];
      assert 0 <= k + 1 < |r| && name in Hosts(r[k + 1]);
    }
  }

  /** After disabling, a name is live exactly when it is live on some other line. */
  lemma DisableTakesLineOffline(lines: seq<Line>, host: string, name: string)
    requires Live(lines, host)
    ensures var i := FirstLive(lines, host).value;
      Live(DisableFirstLive(lines, host), name) <==> Live(lines[..i] + lines[i + 1..], name)
  {
    var i := FirstLive(lines, host).value;
    assert DisableFirstLive(lines, host) == lines[i := DisabledLine(lines[i])];
    LiveWithoutSlot(lines, i, DisabledLine(lines[i]), name);
  }

  /** After disabling, every name of the disabled line is reported as disabled. */
  lemma DisableReportsNames(lines: seq<Line>, host: string, k: nat)
    requires Live(lines, host)
    requires k < |Hosts(lines[FirstLive(lines, host).value])|
    ensures Disabled(DisableFirstLive(lines, host), Hosts(lines[FirstLive(lines, host).value])[k])
  {
    var i := FirstLive(lines, host).value;
    DisabledLineMentions(lines[i], k);
  }

  /** `enable_host` on the line sequence: the first line whose comment contains
      `host` is replaced by its comment, without the leading `#`, parsed again;
      nothing changes when no comment contains `host`. */
  function EnableFirstDisabled(lines: seq<Line>, host: string): (r: seq<Line>)
    requires AllWellFormed(lines)
    ensures |r| == |lines|
    ensures FirstDisabled(lines, host).None? ==> r == lines
    ensures FirstDisabled(lines, host).Some? ==>
      var i := FirstDisabled(lines, host).value;
      var c := Comment(lines[i]).value;
      c != "" && FromString(c[1..]) == Some(r[i]) &&
      forall j :: 0 <= j < |lines| && j != i ==> r[j] == lines[j]
    ensures AllWellFormed(r)
  {
    match FirstDisabled(lines, host)
    case None => lines
    case Some(i) =>
      var c := Comment(lines[i]).value;
      assert forall ch :: ch in c[1..] ==> ch in c;
      lines[i := FromString(c[1..]).value]
  }

  /** Re-enabling a line commented out in place, by one of its names, restores it
      when no earlier comment mentions that name. */
  lemma EnableRestoresSlot(lines: seq<Line>, i: nat, name: string)
    requires AllWellFormed(lines) && i < |lines| && name in Hosts(lines[i])
    requires forall j :: 0 <= j < i ==> !CommentMentions(lines[j], name)
    ensures AllWellFormed(lines[i := DisabledLine(lines[i])])
    ensures EnableFirstDisabled(lines[i := DisabledLine(lines[i])], name) == lines
  {
    var l := lines[i];
    var d := lines[i := DisabledLine(l)];
    DisabledLineWellFormed(l);
    assert AllWellFormed(d);
    var k :| 0 <= k < |Hosts(l)| && Hosts(l)[k] == name;
    DisabledLineMentions(l, k);
    FirstDisabledAt(d, name, i);
    EnableDisabledLine(l);
    var e := EnableFirstDisabled(d, name);
    assert e[i] == l;
    assert forall j :: 0 <= j < |lines| ==> e[j] == lines[j];
  }

  /** Enabling, by any name of the line, the line that disabling produced gives
      back the original lines, provided no earlier comment mentions that name. */
  lemma DisableThenEnableRestores(lines: seq<Line>, host: string, name: string)
    requires AllWellFormed(lines) && Live(lines, host)
    requires var i := FirstLive(lines, host).value;
      name in Hosts(lines[i]) && forall j :: 0 <= j < i ==> !CommentMentions(lines[j], name)
    ensures EnableFirstDisabled(DisableFirstLive(lines, host), name) == lines
  {
    var i := FirstLive(lines, host).value;
    assert DisableFirstLive(lines, host) == lines[i := DisabledLine(lines[i])];
    EnableRestoresSlot(lines, i, name);
  }

  /** The physical lines of a text: split at line breaks, with no extra empty
      line after a final line break. */
  function TextLines(contents: string): (ps: seq<string>)
    ensures forall k :: 0 <= k < |ps| ==> '\n' !in ps[k]
  {
    var parts := Split(contents, '\n');
    if parts[|parts| - 1] == "" then parts[..|parts| - 1] else parts
  }

  /** One physical line parsed; a physical line never holds a line break, so
      the parse always succeeds. */
  function ParseLine(p: string): (l: Line)
    ensures '\n' !in p ==> FromString(p) == Some(l)
  {
    match FromString(p)
    case Some(l) => l
    case None => Blank
  }

  /** Each physical line parsed on its own. */
  function ParseLines(ps: seq<string>): (lines: seq<Line>)
    requires forall k :: 0 <= k < |ps| ==> '\n' !in ps[k]
    ensures |lines| == |ps|
    ensures forall k :: 0 <= k < |ps| ==> FromString(ps[k]) == Some(lines[k])
  {
    Map(ParseLine, ps)
  }

  /** The line sequence parsed from a whole file's text. */
  function ParseFile(contents: string): (lines: seq<Line>)
    ensures |lines| == |TextLines(contents)|
    ensures forall k :: 0 <= k < |lines| ==> FromString(TextLines(contents)[k]) == Some(lines[k])
    ensures AllWellFormed(lines)
  {
    ParseLines(TextLines(contents))
  }

  /** Rendering the parsed lines gives back lines that were already in rendered form. */
  lemma RenderParseLines(ps: seq<string>)
    requires forall k :: 0 <= k < |ps| ==> '\n' !in ps[k]
    requires forall k :: 0 <= k < |ps| ==> Render(FromString(ps[k]).value) == ps[k]
    ensures Map(Render, ParseLines(ps)) == ps
  {
    var lines := ParseLines(ps);
    var r := Map(Render, lines);
    forall k | 0 <= k < |ps|
      ensures r[k] == ps[k]
    {
      assert r[k] == Render(lines[k]);
      assert FromString(ps[k]).value == lines[k];
    }
  }

  /** A text ending in a line break splits into its physical lines and one empty piece. */
  lemma TextLinesOfTerminated(contents: string)
    requires contents != [] && contents[|contents| - 1] == '\n'
    ensures TextLines(contents) + [""] == Split(contents, '\n')
  {
    var body := contents[..|contents| - 1];
    assert contents == body + ['\n'];
    SplitTerminated(body, '\n');
    var parts := Split(contents, '\n');
    assert parts[..|parts| - 1] == Split(body, '\n');
  }

  /** Loading and rendering again reproduces a text whose lines are already in
      rendered form and which ends with a line break. */
  lemma SerializeParseFile(contents: string)
    requires contents != [] && contents[|contents| - 1] == '\n'
    requires forall p :: p in TextLines(contents) ==> Render(FromString(p).value) == p
    ensures Serialize(ParseFile(contents)) == contents
  {
    var ps := TextLines(contents);
    TextLinesOfTerminated(contents);
    RenderParseLines(ps);
    JoinAppend(ps, "", "\n");
  }

  /** The hosts file the program manages: its lines and the name of its file. */
  class ManagedHostsFile {
    var lines: seq<Line>
    var fileName: string

    ghost predicate Valid()
      reads this
    {
      AllWellFormed(lines)
    }

    /** `from_string`: parse the whole text. */
    constructor FromText(contents: string, fileName: string)
      ensures Valid() && lines == ParseFile(contents) && this.fileName == fileName
    {
      lines := ParseFile(contents);
      this.fileName := fileName;
    }

    function GetMatches(host: string, mode: MatchType): seq<Line>
      reads this
    {
      Matches(lines, host, mode)
    }

    function GetMultiMatch(hosts: seq<string>, mode: MatchType): seq<string>
      reads this
    {
      MultiMatch(lines, hosts, mode)
    }

    function HasHost(host: string): bool
      reads this
    {
      Live(lines, host)
    }

    function HasDisabledHost(host: string): bool
      reads this
    {
      Disabled(lines, host)
    }

    function WithoutComments(): seq<Line>
      reads this
    {
      Uncommented(lines)
    }

    function Contents(): string
      reads this
    {
      Serialize(lines)
    }

    /** `add_line`: parse one line and append it. */
    method AddLine(line: string)
      requires Valid() && '\n' !in line
      modifies this`lines
      ensures Valid()
      ensures lines == old(lines) + [FromString(line).value]
      ensures old(lines) != [] ==> Contents() == old(Contents()) + Render(FromString(line).value) + "\n"
    {
      var l := FromString(line).value;
      SerializeAppend(lines, l);
      lines := lines + [l];
    }

    /** `remove_host`: delete the first line listing `host`, which must exist. */
    method RemoveHost(host: string)
      requires Valid() && HasHost(host)
      modifies this`lines
      ensures Valid()
      ensures lines == RemoveFirstLive(old(lines), host)
    {
      var index := FirstLive(lines, host).value;
      ghost var before := lines;
      lines := lines[..index] + lines[index + 1..];
      assert lines == RemoveFirstLive(before, host);
    }

    /** `disable_host`: comment out the first line listing `host`; `found` is
        false, and nothing changes, when there is none. */
    method DisableHost(host: string) returns (found: bool)
      requires Valid()
      modifies this`lines
      ensures Valid()
      ensures found == old(HasHost(host))
      ensures lines == DisableFirstLive(old(lines), host)
    {
      var position := FirstLive(lines, host);
      match position
      case Some(index) =>
        ghost var before := lines;
        lines := lines[index := DisabledLine(lines[index])];
        assert lines == DisableFirstLive(before, host);
        found := true;
      case None =>
        found := false;
    }

    /** `enable_host`: re-parse the first comment containing `host` as a line;
        `found` is false, and nothing changes, when there is none. */
    method EnableHost(host: string) returns (found: bool)
      requires Valid()
      modifies this`lines
      ensures Valid()
      ensures found == old(HasDisabledHost(host))
      ensures lines == EnableFirstDisabled(old(lines), host)
    {
      var position := FirstDisabled(lines, host);
      match position
      case Some(index) =>
        var comment := Comment(lines[index]).value;
        var newLine := FromString(comment[1..]).value;
        lines := lines[index := newLine];
        found := true;
      case None =>
        found := false;
    }
  }
}

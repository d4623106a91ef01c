/** The `add` command of src/commands/mod.rs, which works on the raw text of
    the file: refuse when a requested name already matches exactly, otherwise
    append a comment line and a host line to the text. Reading and writing the
    file are outside the model: the text comes in and the new text comes out. */
module LegacyAdd {
  import opened Collections
  import opened Strings
  import opened FileUtils
  import opened LegacyCheck

  datatype RunOutcome =
    | Refused(name: string, matches: seq<string>)  // `name` already matches these lines
    | Written(content: string)                     // the text that would be written

  /** The new text: the old text, then `#<comment>` and `<ip> <names>` on lines
      of their own; the comment defaults to the joined names. */
  function Appended(content: string, ip: string, names: seq<string>, comment: string): (r: string)
    ensures content <= r && |r| > |content|
  {
    var name := Join(names, " ");
    var computed := if comment == "" then name else comment;
    content + "\n" + ("#" + computed) + "\n" + (ip + " " + name)
  }

  /** The refusal test `matches.len() > 0`: a name is present exactly when
      some line of the text matches it exactly. */
  function Present(content: string, name: string): (b: bool)
    ensures b <==> exists line {:trigger ExactMatch(name, line)} :: line in Split(content, '\n') && ExactMatch(name, line)
  {
    MatchedLineExists(content, name);
    GetMatches(content, name, true) != []
  }

  /** The exact `check` lines are non-empty exactly when some line matches. */
  lemma MatchedLineExists(content: string, name: string)
    ensures GetMatches(content, name, true) != [] <==>
      exists line {:trigger ExactMatch(name, line)} :: line in Split(content, '\n') && ExactMatch(name, line)
  {
    var parts := Split(content, '\n');
    var r := GetMatches(content, name, true);
    GetMatchesExactly(content, name, true);
    if r != [] {
      var j :| 0 <= j < |parts| && parts[j] == r[0];
      assert LineMentions(parts[j], name, true);
    }
  }

  /** `add::run`: check the comma-separated names in order and stop at the
      first that is present; otherwise produce the new text. */
  method Run(content: string, ip: string, names: string, comment: string) returns (r: RunOutcome)
    ensures r.Refused? <==> exists k :: 0 <= k < |Split(names, ',')| && Present(content, Split(names, ',')[k])
    ensures r.Refused? ==>
      exists k :: 0 <= k < |Split(names, ',')| && r.name == Split(names, ',')[k] &&
        (forall j :: 0 <= j < k ==> !Present(content, Split(names, ',')[j]))
    ensures r.Refused? ==> r.matches == GetMatches(content, r.name, true) && r.matches != []
    ensures r.Written? ==> r.content == Appended(content, ip, Split(names, ','), comment)
  {
    var allNames := Split(names, ',');
    for k := 0 to |allNames|
      invariant forall j :: 0 <= j < k ==> !Present(content, allNames[j])
    {
      var matches := GetMatches(content, allNames[k], true);
      if |matches| > 0 {
        r := Refused(allNames[k], matches);
        assert 0 <= k < |Split(names, ',')| && Present(content, Split(names, ',')[k]);
        assert r.name == Split(names, ',')[k] && forall j :: 0 <= j < k ==> !Present(content, Split(names, ',')[j]);
        return;
      }
    }
    r := Written(Appended(content, ip, allNames, comment));
  }

  /** On one line, the new text's lines are the old ones followed by the
      comment line and the host line. */
  lemma AppendedLines(content: string, ip: string, names: seq<string>, comment: string)
    requires '\n' !in ip && '\n' !in comment
    requires forall k :: 0 <= k < |names| ==> '\n' !in names[k]
    ensures var name := Join(names, " ");
      var computed := if comment == "" then name else comment;
      Split(Appended(content, ip, names, comment), '\n') ==
        Split(content, '\n') + ["#" + computed, ip + " " + name]
  {
    var name := Join(names, " ");
    var computed := if comment == "" then name else comment;
    JoinAvoids(names, " ", '\n');
    var first, second := "#" + computed, ip + " " + name;
    assert '\n' !in first && '\n' !in second;
    var tail := first + ['\n'] + second;
    assert Appended(content, ip, names, comment) == content + ['\n'] + tail;
    SplitAround(content, tail, '\n');
    SplitAround(first, second, '\n');
    SplitWithoutSeparator(first, '\n');
    SplitWithoutSeparator(second, '\n');
  }

  /** Running `add` again with the same names on the text it wrote is refused:
      every name now matches the new host line exactly. */
  lemma AppendedNamesMatch(content: string, ip: string, names: seq<string>, comment: string, k: nat)
    requires '\n' !in ip && '\n' !in comment
    requires forall j :: 0 <= j < |names| ==> '\n' !in names[j]
    requires k < |names|
    ensures GetMatches(Appended(content, ip, names, comment), names[k], true) != []
  {
    var name := Join(names, " ");
    var line := ip + " " + name;
    JoinedPartsMatch(names, k, "");
    assert name + "" == name;
    var i: nat :| DelimitedAt(names[k], name, i);
    ShiftDelimited(ip + " ", name, names[k], i);
    assert ExactMatch(names[k], line);
    AppendedLines(content, ip, names, comment);
    var parts := Split(Appended(content, ip, names, comment), '\n');
    assert parts[|parts| - 1] == line;
  }
}

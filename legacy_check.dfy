/** The `check` command of src/commands/mod.rs, which works on the raw text
    of the file: the lines of the text that mention a host. Its `exact_match`
    is the same pattern as in src/file_utils.rs and is modelled once, by
    `FileUtils.ExactMatch`. */
module LegacyCheck {
  import opened Collections
  import opened Strings
  import opened FileUtils

  /** The per-line test: an exact match, or a plain substring; in either mode
      a line that passes contains the host. */
  function LineMentions(line: string, host: string, exact: bool): (b: bool)
    ensures b ==> Contains(line, host)
  {
    if exact then ExactMatch(host, line) else Contains(line, host)
  }

  /** `check::get_matches`: the pieces of `content` between line breaks that
      mention `host`, in text order. */
  function GetMatches(content: string, host: string, exact: bool): (r: seq<string>)
    ensures IsSubsequence(r, Split(content, '\n'))
  {
    Filter((line: string) => LineMentions(line, host, exact), Split(content, '\n'))
  }

  /** The lines kept are exactly the pieces that mention the host: no other
      piece is kept, none that mentions it is dropped, and a repeated piece is
      kept as often as it occurs. */
  lemma GetMatchesExactly(content: string, host: string, exact: bool)
    ensures var r := GetMatches(content, host, exact);
      (forall k :: 0 <= k < |r| ==> r[k] in Split(content, '\n') && '\n' !in r[k] && LineMentions(r[k], host, exact)) &&
      (forall k :: 0 <= k < |Split(content, '\n')| && LineMentions(Split(content, '\n')[k], host, exact) ==>
         Split(content, '\n')[k] in r)
    ensures var r := GetMatches(content, host, exact);
      forall k {:trigger multiset(r)[Split(content, '\n')[k]]} :: 0 <= k < |Split(content, '\n')| ==>
        multiset(r)[Split(content, '\n')[k]] ==
          if LineMentions(Split(content, '\n')[k], host, exact) then multiset(Split(content, '\n'))[Split(content, '\n')[k]] else 0
  {
    var parts := Split(content, '\n');
    var r := GetMatches(content, host, exact);
    FilterCounts((line: string) => LineMentions(line, host, exact), parts);
    forall k | 0 <= k < |r|
      ensures '\n' !in r[k]
    {
      var j :| 0 <= j < |parts| && parts[j] == r[k];
    }
  }

  /** The exact matches are among the substring matches, in the same order. */
  lemma ExactLinesArePartial(content: string, host: string)
    ensures IsSubsequence(GetMatches(content, host, true), GetMatches(content, host, false))
  {
    FilterNarrower((line: string) => LineMentions(line, host, true),
                   (line: string) => LineMentions(line, host, false), Split(content, '\n'));
  }

  /** A host that does not occur in the text yields no lines, in either mode. */
  lemma AbsentHostNoLines(content: string, host: string)
    requires !Contains(content, host)
    ensures GetMatches(content, host, false) == [] && GetMatches(content, host, true) == []
  {
    var parts := Split(content, '\n');
    GetMatchesExactly(content, host, false);
    forall k | 0 <= k < |parts|
      ensures !Contains(parts[k], host)
    {
      if Contains(parts[k], host) {
        JoinContainsParts(parts, "\n", k);
        ContainsTransitive(content, parts[k], host);
      }
    }
    ExactLinesArePartial(content, host);
  }
}

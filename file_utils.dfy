/** The exact-match predicate of src/file_utils.rs: the pattern `(^| )needle( |$)`,
    read with `needle` as literal text. */
module FileUtils {
  import opened Strings

  /** `needle` occurs at `i`, preceded by the start of the text or a space, and
      followed by a space or the end of the text. */
  predicate DelimitedAt(needle: string, haystack: string, i: nat) {
    OccursAt(haystack, needle, i) &&
    (i == 0 || haystack[i - 1] == ' ') &&
    (i + |needle| == |haystack| || haystack[i + |needle|] == ' ')
  }

  /** `exact_match(needle, haystack)`: the pattern matches somewhere in the haystack.
      An exact match is always also a plain substring match. */
  function ExactMatch(needle: string, haystack: string): (b: bool)
    ensures b <==> exists i: nat :: DelimitedAt(needle, haystack, i)
    ensures b ==> Contains(haystack, needle)
  {
    MatchFrom(needle, haystack, 0)
  }

  /** The pattern engine's scan: try each start position from `i` onwards. */
  function MatchFrom(needle: string, haystack: string, i: nat): (b: bool)
    requires i <= |haystack|
    ensures b <==> exists j: nat :: i <= j && DelimitedAt(needle, haystack, j)
    decreases |haystack| - i
  {
    if DelimitedAt(needle, haystack, i) then true
    else if i == |haystack| then false
    else MatchFrom(needle, haystack, i + 1)
  }

  /** A whole-string match satisfies both anchors. */
  lemma ExactMatchOfItself(name: string)
    ensures ExactMatch(name, name)
  {
    assert name[0..|name|] == name;
    assert DelimitedAt(name, name, 0);
  }

  /** In text without spaces the pattern matches only the whole text. */
  lemma WithoutSpacesOnlyWholeText(name: string, haystack: string)
    requires ' ' !in haystack
    ensures ExactMatch(name, haystack) <==> name == haystack
  {
    if name == haystack {
      ExactMatchOfItself(name);
    }
  }

  /** Only the space separates: a name flanked by any other character `c`
      (a tab, say) does not match. */
  lemma OnlySpaceSeparates(name: string, c: char)
    requires c != ' ' && ' ' !in name
    ensures !ExactMatch(name, [c] + name + [c])
  {
    WithoutSpacesOnlyWholeText(name, [c] + name + [c]);
  }

  /** Where part `k` starts in the space-joined text. */
  function JoinOffset(parts: seq<string>, k: nat): nat
    requires k < |parts|
  {
    if k == 0 then 0 else |parts[0]| + 1 + JoinOffset(parts[1..], k - 1)
  }

  /** Every part of a space-joined text is delimited where it starts, also
      when more text follows after a space. */
  lemma {:induction false} JoinedPartsDelimited(parts: seq<string>, k: nat, tail: string)
    requires k < |parts| && (tail == [] || tail[0] == ' ')
    ensures DelimitedAt(parts[k], Join(parts, " ") + tail, JoinOffset(parts, k))
  {
    if |parts| == 1 {
      LeadingDelimited(parts[0], tail);
    } else {
      var rest := Join(parts[1..], " ") + tail;
      assert Join(parts, " ") + tail == parts[0] + " " + rest;
      if k == 0 {
        assert parts[0] + " " + rest == parts[0] + (" " + rest);
        LeadingDelimited(parts[0], " " + rest);
      } else {
        JoinedPartsDelimited(parts[1..], k - 1, tail);
        ShiftDelimited(parts[0] + " ", rest, parts[k], JoinOffset(parts[1..], k - 1));
      }
    }
  }

  /** Every part of a space-joined text matches exactly in it, also when more
      text follows after a space. */
  lemma JoinedPartsMatch(parts: seq<string>, k: nat, tail: string)
    requires k < |parts| && (tail == [] || tail[0] == ' ')
    ensures ExactMatch(parts[k], Join(parts, " ") + tail)
  {
    JoinedPartsDelimited(parts, k, tail);
  }

  /** Text at the start, followed by nothing or a space, is delimited. */
  lemma LeadingDelimited(needle: string, after: string)
    requires after == [] || after[0] == ' '
    ensures DelimitedAt(needle, needle + after, 0)
  {
    assert (needle + after)[..|needle|] == needle;
  }

  /** A delimited occurrence stays delimited behind a prefix that ends in a space. */
  lemma ShiftDelimited(pre: string, s: string, needle: string, i: nat)
    requires pre != [] && pre[|pre| - 1] == ' ' && DelimitedAt(needle, s, i)
    ensures DelimitedAt(needle, pre + s, |pre| + i)
  {
    var u := pre + s;
    assert u[|pre| + i..|pre| + i + |needle|] == s[i..i + |needle|];
    if i > 0 {
      assert u[|pre| + i - 1] == s[i - 1];
    }
    if i + |needle| < |s| {
      assert u[|pre| + i + |needle|] == s[i + |needle|];
    }
  }
}

/** The `str` operations of Rust's standard library that the program relies on:
    `contains`, `split`, `join`, and whitespace tokenising. */
module Strings {
  import opened Collections

  /** `needle` starts at index `i` of `s`. */
  predicate OccursAt(s: string, needle: string, i: nat) {
    i + |needle| <= |s| && s[i..i + |needle|] == needle
  }

  /** `s.contains(needle)` for a string pattern: some occurrence exists. */
  function Contains(s: string, needle: string): (b: bool)
    ensures b <==> exists i: nat :: OccursAt(s, needle, i)
    decreases |s|
  {
    if needle <= s then
      assert OccursAt(s, needle, 0);
      true
    else if s == [] then false
    else
      OccurrenceShift(s, needle);
      Contains(s[1..], needle)
  }

  /** An occurrence in `s` past its first character is an occurrence in `s[1..]`, and back. */
  lemma OccurrenceShift(s: string, needle: string)
    requires s != [] && !(needle <= s)
    ensures (exists i: nat :: OccursAt(s, needle, i)) <==> (exists i: nat :: OccursAt(s[1..], needle, i))
  {
    if i: nat :| OccursAt(s, needle, i) {
      assert i != 0;
      assert s[1..][i - 1..i - 1 + |needle|] == s[i..i + |needle|];
      assert OccursAt(s[1..], needle, i - 1);
    }
    if i: nat :| OccursAt(s[1..], needle, i) {
      assert s[1..][i..i + |needle|] == s[i + 1..i + 1 + |needle|];
      assert OccursAt(s, needle, i + 1);
    }
  }

  /** `s.find(c)`, with `|s|` standing for "not found". */
  function IndexOf(s: string, c: char): (i: nat)
    ensures i <= |s| && c !in s[..i]
    ensures i < |s| ==> s[i] == c
  {
    match Position((x: char) => x == c, s)
    case None => |s|
    case Some(k) => k
  }

  /** `IndexOf` is the only index that meets its own contract. */
  lemma IndexOfUnique(s: string, c: char, i: nat)
    requires i <= |s| && c !in s[..i]
    requires i < |s| ==> s[i] == c
    ensures IndexOf(s, c) == i
  {
  }

  /** An occurrence in either part is an occurrence in the concatenation. */
  lemma ContainsInConcat(a: string, b: string, needle: string)
    requires Contains(a, needle) || Contains(b, needle)
    ensures Contains(a + b, needle)
  {
    if Contains(a, needle) {
      var i: nat :| OccursAt(a, needle, i);
      assert (a + b)[i..i + |needle|] == a[i..i + |needle|];
      assert OccursAt(a + b, needle, i);
    } else {
      var i: nat :| OccursAt(b, needle, i);
      assert (a + b)[|a| + i..|a| + i + |needle|] == b[i..i + |needle|];
      assert OccursAt(a + b, needle, |a| + i);
    }
  }

  /** Containment is transitive: what occurs in an occurrence occurs in the text. */
  lemma ContainsTransitive(a: string, b: string, c: string)
    requires Contains(a, b) && Contains(b, c)
    ensures Contains(a, c)
  {
    var i: nat :| OccursAt(a, b, i);
    var j: nat :| OccursAt(b, c, j);
    forall t | 0 <= t < |c|
      ensures a[i + j + t] == c[t]
    {
      assert a[i..i + |b|][j + t] == b[j + t];
      assert b[j..j + |c|][t] == c[t];
    }
    assert a[i + j..i + j + |c|] == c;
    assert OccursAt(a, c, i + j);
  }

  /** `parts.join(sep)`. */
  function Join(parts: seq<string>, sep: string): string
  {
    if |parts| == 0 then ""
    else if |parts| == 1 then parts[0]
    else parts[0] + sep + Join(parts[1..], sep)
  }

  /** Joining one more part appends the separator and that part. */
  lemma {:induction false} JoinAppend(parts: seq<string>, x: string, sep: string)
    requires |parts| >= 1
    ensures Join(parts + [x], sep) == Join(parts, sep) + sep + x
  {
    if |parts| > 1 {
      assert (parts + [x])[1..] == parts[1..] + [x];
      JoinAppend(parts[1..], x, sep);
    }
  }

  /** A character outside every part and the separator is outside the joined text. */
  lemma {:induction false} JoinAvoids(parts: seq<string>, sep: string, c: char)
    requires forall k :: 0 <= k < |parts| ==> c !in parts[k]
    requires c !in sep
    ensures c !in Join(parts, sep)
  {
    if |parts| > 1 {
      JoinAvoids(parts[1..], sep, c);
    }
  }

  /** Every part occurs in the joined text. */
  lemma {:induction false} JoinContainsParts(parts: seq<string>, sep: string, k: nat)
    requires k < |parts|
    ensures Contains(Join(parts, sep), parts[k])
  {
    var j := Join(parts, sep);
    if |parts| == 1 {
      assert OccursAt(j, parts[k], 0);
    } else if k == 0 {
      assert j[..|parts[0]|] == parts[0];
      assert OccursAt(j, parts[k], 0);
    } else {
      JoinContainsParts(parts[1..], sep, k - 1);
      var rest := Join(parts[1..], sep);
      var i: nat :| OccursAt(rest, parts[k], i);
      var off := |parts[0]| + |sep|;
      assert j == parts[0] + sep + rest;
      assert j[off + i..off + i + |parts[k]|] == rest[i..i + |parts[k]|];
      assert OccursAt(j, parts[k], off + i);
    }
  }

  /** `s.split(c)`: the pieces between occurrences of `c`; never empty. */
  function Split(s: string, c: char): (r: seq<string>)
    ensures |r| >= 1
    ensures forall k :: 0 <= k < |r| ==> c !in r[k]
    ensures Join(r, [c]) == s
  {
    if s == [] then [""]
    else
      var rest := Split(s[1..], c);
      if s[0] == c then
        assert Join([""] + rest, [c]) == [c] + Join(rest, [c]);
        [""] + rest
      else
        var r := [[s[0]] + rest[0]] + rest[1..];
        assert |rest| > 1 ==> Join(rest, [c]) == rest[0] + [c] + Join(rest[1..], [c]);
        assert |rest| > 1 ==> Join(r, [c]) == [s[0]] + rest[0] + [c] + Join(r[1..], [c]);
        assert r[1..] == rest[1..];
        r
  }

  /** Text without the separator splits into itself. */
  lemma {:induction false} SplitWithoutSeparator(s: string, c: char)
    requires c !in s
    ensures Split(s, c) == [s]
  {
    if s != [] {
      SplitWithoutSeparator(s[1..], c);
    }
  }

  /** Splitting around one separator splits each side. */
  lemma {:induction false} SplitAround(a: string, b: string, c: char)
    ensures Split(a + [c] + b, c) == Split(a, c) + Split(b, c)
  {
    if a == [] {
      assert a + [c] + b == [c] + b;
      assert ([c] + b)[1..] == b;
    } else {
      assert (a + [c] + b)[0] == a[0];
      assert (a + [c] + b)[1..] == a[1..] + [c] + b;
      SplitAround(a[1..], b, c);
    }
  }

  /** Two pieces joined by one separator split back into those two pieces. */
  lemma SplitPair(a: string, b: string, c: char)
    requires c !in a && c !in b
    ensures Split(a + [c] + b, c) == [a, b]
  {
    SplitAround(a, b, c);
    SplitWithoutSeparator(a, c);
    SplitWithoutSeparator(b, c);
  }

  /** A trailing separator adds one empty piece. */
  lemma {:induction false} SplitTerminated(a: string, c: char)
    ensures Split(a + [c], c) == Split(a, c) + [""]
  {
    if a != [] {
      assert (a + [c])[0] == a[0];
      assert (a + [c])[1..] == a[1..] + [c];
      SplitTerminated(a[1..], c);
    }
  }

  /** `split` inverts `join` for parts that do not contain the separator. */
  lemma {:induction false} SplitOfJoin(parts: seq<string>, c: char)
    requires |parts| >= 1
    requires forall k :: 0 <= k < |parts| ==> c !in parts[k]
    ensures Split(Join(parts, [c]), c) == parts
  {
    if |parts| == 1 {
      SplitWithoutSeparator(parts[0], c);
    } else {
      SplitOfJoin(parts[1..], c);
      SplitAround(parts[0], Join(parts[1..], [c]), c);
      SplitWithoutSeparator(parts[0], c);
      assert [parts[0]] + parts[1..] == parts;
    }
  }

  /** The whitespace-separated words of `s`: split on spaces, empty pieces dropped. */
  function Words(s: string): seq<string>
  {
    Filter((t: string) => t != "", Split(s, ' '))
  }

  /** A character absent from the text is absent from every piece it splits into. */
  lemma {:induction false} SplitAvoids(s: string, sep: char, c: char)
    requires c !in s
    ensures forall k :: 0 <= k < |Split(s, sep)| ==> c !in Split(s, sep)[k]
  {
    if s != [] {
      SplitAvoids(s[1..], sep, c);
    }
  }

  /** Every word is non-empty, holds no space, and holds no character the text lacks. */
  lemma WordsAvoid(s: string, c: char)
    requires c !in s
    ensures forall k :: 0 <= k < |Words(s)| ==> Words(s)[k] != "" && ' ' !in Words(s)[k] && c !in Words(s)[k]
  {
    SplitAvoids(s, ' ', c);
  }

  /** Joining words with single spaces and tokenising again gives the words back. */
  lemma {:induction false} WordsOfJoin(ws: seq<string>)
    requires forall k :: 0 <= k < |ws| ==> ws[k] != "" && ' ' !in ws[k]
    ensures Words(Join(ws, " ")) == ws
  {
    if ws == [] {
      assert Split("", ' ') == [""];
    } else {
      SplitOfJoin(ws, ' ');
      FilterKeepsAll((t: string) => t != "", ws);
    }
  }

  /** Two spaces separate words exactly as one space does. */
  lemma WordsCollapseDoubleSpace(x: string, y: string)
    ensures Words(x + "  " + y) == Words(x + " " + y)
  {
    var p := (t: string) => t != "";
    assert x + "  " + y == x + [' '] + ("" + [' '] + y);
    assert x + " " + y == x + [' '] + y;
    SplitAround(x, "" + [' '] + y, ' ');
    SplitAround("", y, ' ');
    SplitAround(x, y, ' ');
    assert Split("", ' ') == [""];
    FilterConcat(p, Split(x, ' '), [""] + Split(y, ' '));
    FilterConcat(p, [""], Split(y, ' '));
    FilterConcat(p, Split(x, ' '), Split(y, ' '));
  }

  /** A trailing space does not add a word. */
  lemma WordsTrailingSpace(x: string)
    ensures Words(x + " ") == Words(x)
  {
    var p := (t: string) => t != "";
    assert x + " " == x + [' '] + "";
    SplitAround(x, "", ' ');
    assert Split("", ' ') == [""];
    FilterConcat(p, Split(x, ' '), [""]);
  }
}

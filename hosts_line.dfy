/** One line of a hosts file, as the `hosts_parser` crate's `HostsFileLine`
    presents it to the program: its rendering, its host names, its comment, and
    the two constructors `from_string` and `from_comment`.

    The crate itself is not part of this model. This module is a minimal
    stand-in with the behaviour the program's tests rely on: a comment line
    has no hosts, `from_comment(c)` has comment `c`, parsing
    `"<ip> <h1> <h2>"` yields those hosts, and rendering collapses runs of
    spaces between tokens. Comment text is kept verbatim, including its `#`. */
module HostsLine {
  import opened Collections
  import opened Strings

  /** An address or a host name: non-empty, no space, no `#`, no line break. */
  predicate IsToken(t: string) {
    t != "" && ' ' !in t && '#' !in t && '\n' !in t
  }

  /** Comment text: starts with `#` and stays on one line. */
  predicate IsCommentText(c: string) {
    c != "" && c[0] == '#' && '\n' !in c
  }

  datatype Line =
    | Entry(address: string, names: seq<string>, comment: Option<string>)  // `<ip> <names> [# comment]`
    | CommentLine(text: string)                                             // a line that starts with `#`
    | Blank                                                                 // an empty line

  /** The lines the parser can produce. */
  predicate WellFormed(l: Line) {
    match l
    case Entry(address, names, comment) =>
      IsToken(address) &&
      (forall k :: 0 <= k < |names| ==> IsToken(names[k])) &&
      (comment.Some? ==> IsCommentText(comment.value))
    case CommentLine(text) => IsCommentText(text)
    case Blank => true
  }

  /** `format!("{}", line)`: tokens joined by single spaces, then the comment.
      A well-formed line renders on one physical line. */
  function Render(l: Line): (s: string)
    ensures WellFormed(l) ==> '\n' !in s
  {
    match l
    case Entry(address, names, comment) =>
      TokensStayOnOneLine([address] + names);
      Join([address] + names, " ") + (if comment.Some? then " " + comment.value else "")
    case CommentLine(text) => text
    case Blank => ""
  }

  /** Tokens joined by spaces hold no line break. */
  lemma TokensStayOnOneLine(tokens: seq<string>)
    ensures (forall k :: 0 <= k < |tokens| ==> IsToken(tokens[k])) ==> '\n' !in Join(tokens, " ")
  {
    if forall k :: 0 <= k < |tokens| ==> IsToken(tokens[k]) {
      JoinAvoids(tokens, " ", '\n');
    }
  }

  /** A line with a comment renders ending in that comment. */
  lemma RenderEndsInComment(l: Line)
    requires Comment(l).Some?
    ensures |Comment(l).value| <= |Render(l)|
    ensures Render(l)[|Render(l)| - |Comment(l).value|..] == Comment(l).value
  {
    var s := Render(l);
    var c := Comment(l).value;
    if l.Entry? {
      var j := Join([l.address] + l.names, " ");
      assert s == (j + " ") + c;
      assert s[|j + " "|..] == c;
    }
  }

  /** `line.hosts()`: the host names of an address line; a comment line has none. */
  function Hosts(l: Line): (hs: seq<string>)
    ensures !l.Entry? ==> hs == []
  {
    if l.Entry? then l.names else []
  }

  /** `line.comment()`: the comment text, including its `#`. A comment line
      always has one, and on a well-formed line it starts with `#`, so
      `comment[1..]` drops exactly that character. */
  function Comment(l: Line): (c: Option<string>)
    ensures l.CommentLine? ==> c.Some?
    ensures l.Blank? ==> c.None?
    ensures WellFormed(l) && c.Some? ==> IsCommentText(c.value)
  {
    match l
    case Entry(_, _, comment) => comment
    case CommentLine(text) => Some(text)
    case Blank => None
  }

  /** `line.has_host()`: the line maps at least one host name. */
  function HasHost(l: Line): (b: bool)
    ensures b <==> Hosts(l) != []
  {
    l.Entry? && l.names != []
  }

  /** `HostsFileLine::from_comment(c)`: a comment-only line whose comment is `c`. */
  function FromComment(c: string): (l: Line)
    ensures Comment(l) == Some(c) && Hosts(l) == []
    ensures IsCommentText(c) ==> WellFormed(l)
  {
    CommentLine(c)
  }

  /** `HostsFileLine::from_string(s)`: fails only on text that spans more than one line. */
  function FromString(s: string): (r: Option<Line>)
    ensures r.Some? <==> '\n' !in s
    ensures r.Some? ==> WellFormed(r.value)
  {
    if '\n' in s then None
    else
      var k := IndexOf(s, '#');
      WordsAvoid(s[..k], '#');
      WordsAvoid(s[..k], '\n');
      assert forall c :: c in s[k..] ==> c in s;
      Some(Assemble(Words(s[..k]), s[k..]))
  }

  /** The line made of the words before the first `#` and the text from it on. */
  function Assemble(words: seq<string>, rest: string): (l: Line)
    ensures (forall k :: 0 <= k < |words| ==> IsToken(words[k])) && (rest == "" || IsCommentText(rest)) ==>
      WellFormed(l)
  {
    if words == [] then (if rest == "" then Blank else CommentLine(rest))
    else Entry(words[0], words[1..], if rest == "" then None else Some(rest))
  }

  /** `FromString` cuts a one-line text at its first `#`, wherever that is. */
  lemma FromStringAt(s: string, k: nat)
    requires '\n' !in s && k <= |s| && '#' !in s[..k] && (k < |s| ==> s[k] == '#')
    ensures FromString(s) == Some(Assemble(Words(s[..k]), s[k..]))
  {
    IndexOfUnique(s, '#', k);
  }

  /** Rendering a parsed line and parsing it again gives the same line. */
  lemma FromStringOfRender(l: Line)
    requires WellFormed(l)
    ensures FromString(Render(l)) == Some(l)
  {
    match l
    case Entry(address, names, comment) =>
      var tokens := [address] + names;
      assert forall k :: 0 <= k < |tokens| ==> IsToken(tokens[k]);
      var j := Join(tokens, " ");
      JoinAvoids(tokens, " ", '#');
      JoinAvoids(tokens, " ", '\n');
      WordsOfJoin(tokens);
      if comment.None? {
        assert Render(l) == j;
        IndexOfUnique(j, '#', |j|);
        assert j[..|j|] == j;
      } else {
        var s := j + " " + comment.value;
        assert Render(l) == s;
        assert s[..|j| + 1] == j + " ";
        IndexOfUnique(s, '#', |j| + 1);
        WordsTrailingSpace(j);
        assert s[|j| + 1..] == comment.value;
      }
    case CommentLine(text) =>
      IndexOfUnique(text, '#', 0);
      assert Split("", ' ') == [""];
    case Blank =>
      assert Split("", ' ') == [""];
  }

  /** Parsing treats a double space before any comment as a single space. */
  lemma FromStringCollapsesDoubleSpace(x: string, y: string)
    requires '#' !in x
    ensures FromString(x + "  " + y) == FromString(x + " " + y)
  {
    var s1, s2 := x + "  " + y, x + " " + y;
    assert '\n' in s1 <==> '\n' in s2;
    if '\n' !in s1 {
      var j := IndexOf(y, '#');
      var k1, k2 := |x| + 2 + j, |x| + 1 + j;
      assert s1[..k1] == x + "  " + y[..j];
      assert s2[..k2] == x + " " + y[..j];
      assert s1[k1..] == y[j..] && s2[k2..] == y[j..];
      FromStringAt(s1, k1);
      FromStringAt(s2, k2);
      WordsCollapseDoubleSpace(x, y[..j]);
    }
  }

  /** Parsing `"<ip> <h1> ... <hn>"` yields an address line with exactly those hosts. */
  lemma FromStringOfHostsLine(ip: string, names: seq<string>)
    requires IsToken(ip) && names != []
    requires forall k :: 0 <= k < |names| ==> IsToken(names[k])
    ensures FromString(ip + " " + Join(names, " ")) == Some(Entry(ip, names, None))
  {
    var l := Entry(ip, names, None);
    var tokens := [ip] + names;
    assert tokens[0] == ip && tokens[1..] == names;
    assert Join(tokens, " ") == ip + " " + Join(names, " ");
    assert Render(l) == ip + " " + Join(names, " ");
    FromStringOfRender(l);
  }

  /** Every host name of a line appears in its rendering. */
  lemma RenderShowsHosts(l: Line, k: nat)
    requires k < |Hosts(l)|
    ensures Contains(Render(l), Hosts(l)[k])
  {
    var tokens := [l.address] + l.names;
    assert tokens[k + 1] == Hosts(l)[k];
    JoinContainsParts(tokens, " ", k + 1);
    if l.comment.Some? {
      ContainsInConcat(Join(tokens, " "), " " + l.comment.value, Hosts(l)[k]);
    } else {
      assert Render(l) == Join(tokens, " ");
    }
  }

  /** The program's load test: `127.0.0.1  localhost` renders as `127.0.0.1 localhost`. */
  lemma LoadCollapsesSpaces(ip: string, host: string)
    requires ip == "127.0.0.1" && host == "localhost"
    ensures FromString(ip + "  " + host) == Some(Entry(ip, [host], None))
    ensures Render(Entry(ip, [host], None)) == ip + " " + host
  {
    assert IsToken(ip) && IsToken(host);
    FromStringCollapsesDoubleSpace(ip, host);
    assert Join([host], " ") == host;
    FromStringOfHostsLine(ip, [host]);
  }
}

/** The fragment of Python regular expressions the back end generates: escaping, replacement, and a reader and
    matcher for literals, `.`, `*`, and one parenthesised alternation. */
module Regex {
  import opened Text

  /** A character class of the fragment: one literal character, or `.`. */
  datatype Atom = Literal(c: char) | AnyChar {
    /** `.` matches everything but a line feed. */
    predicate Accepts(x: char) {
      match this
      case Literal(c) => x == c
      case AnyChar => x != '\n'
    }
  }

  datatype Item = Item(atom: Atom, starred: bool)

  const SPECIAL: set<char> :=
    {'\t', '\n', '\U{000B}', '\U{000C}', '\r', ' ', '#', '$', '&', '(', ')', '*', '+', '-', '.', '?', '[', '\\',
     ']', '^', '{', '|', '}', '~'}

  /** Characters that are operators of the pattern language outside a character class. */
  const OPERATORS: set<char> := {'$', '(', ')', '*', '+', '.', '?', '[', '\\', '^', '{', '|'}

  function EscapeChar(c: char): string {
    if c in SPECIAL then ['\\', c] else [c]
  }

  /** `re.escape`: a backslash in front of every special character. */
  function Escape(s: string): string {
    if s == "" then "" else EscapeChar(s[0]) + Escape(s[1..])
  }

  /** `s.replace(pat, rep)`: leftmost, non-overlapping. */
  function Replace(s: string, pat: string, rep: string): string
    requires pat != ""
  {
    if s == "" then ""
    else if pat <= s then rep + Replace(s[|pat|..], pat, rep)
    else [s[0]] + Replace(s[1..], pat, rep)
  }

  predicate IsAsciiAlnum(c: char) {
    '0' <= c <= '9' || 'a' <= c <= 'z' || 'A' <= c <= 'Z'
  }

  /** Reads one atom: an escaped non-alphanumeric, `.`, or an ordinary character. Returns it with what follows. */
  function ReadAtom(r: string): (res: Option<(Atom, string)>)
    ensures res.Some? ==> |res.value.1| < |r|
  {
    if r == "" then None
    else if r[0] == '\\' then
      if |r| == 1 || IsAsciiAlnum(r[1]) then None else Some((Literal(r[1]), r[2..]))
    else if r[0] == '.' then Some((AnyChar, r[1..]))
    else if r[0] in OPERATORS then None
    else Some((Literal(r[0]), r[1..]))
  }

  /** Reads items up to the end of the text, a `|` or a `)`. None when the text leaves the fragment. */
  function ReadItems(r: string): (res: Option<(seq<Item>, string)>)
    ensures res.Some? ==> |res.value.1| <= |r|
    ensures res.Some? && res.value.1 != "" ==> res.value.1[0] in {'|', ')'}
    decreases |r|
  {
    if r == "" || r[0] == '|' || r[0] == ')' then Some(([], r))
    else
      match ReadAtom(r)
      case None => None
      case Some((atom, rest)) =>
        var starred := rest != "" && rest[0] == '*';
        match ReadItems(if starred then rest[1..] else rest)
        case None => None
        case Some((items, tail)) => Some(([Item(atom, starred)] + items, tail))
  }

  /** The whole of `r` as a single branch. */
  function ReadBranch(r: string): Option<seq<Item>> {
    match ReadItems(r)
    case Some((items, "")) => Some(items)
    case _ => None
  }

  /** `branch|branch|...)` up to the closing parenthesis, which must end the text. */
  function ReadAlternatives(r: string): Option<seq<seq<Item>>>
    decreases |r|
  {
    match ReadItems(r)
    case None => None
    case Some((items, tail)) =>
      if tail == ")" then Some([items])
      else if tail != "" && tail[0] == '|' then
        match ReadAlternatives(tail[1..])
        case None => None
        case Some(more) => Some([items] + more)
      else None
  }

  function ReadGroup(r: string): Option<seq<seq<Item>>> {
    if r != "" && r[0] == '(' then ReadAlternatives(r[1..]) else None
  }

  /** `re.fullmatch` on one branch: `s` is exactly consumed by the items. */
  predicate FullMatch(items: seq<Item>, s: string)
    decreases |items| + |s|
  {
    if items == [] then s == ""
    else if !items[0].starred then s != "" && items[0].atom.Accepts(s[0]) && FullMatch(items[1..], s[1..])
    else
      || FullMatch(items[1..], s)
      || (s != "" && items[0].atom.Accepts(s[0]) && FullMatch(items, s[1..]))
  }

  function Literals(s: string): seq<Item> {
    seq(|s|, i requires 0 <= i < |s| => Item(Literal(s[i]), false))
  }

  /** Reading an escaped character, followed by anything that does not start with `*`, gives back the literal. */
  lemma ReadEscapedChar(c: char, t: string)
    requires t == "" || t[0] != '*'
    ensures ReadItems(EscapeChar(c) + t) ==
            match ReadItems(t)
            case None => None
            case Some((items, tail)) => Some(([Item(Literal(c), false)] + items, tail))
  {
    var r := EscapeChar(c) + t;
    assert OPERATORS <= SPECIAL;
    assert r[|EscapeChar(c)|..] == t;
    assert ReadAtom(r) == Some((Literal(c), t));
  }

  lemma EscapedHead(s: string, tail: string)
    requires tail == "" || tail[0] in {'|', ')'}
    ensures Escape(s) + tail == "" || (Escape(s) + tail)[0] != '*'
  {
    if s != "" {
      assert (Escape(s) + tail)[0] == EscapeChar(s[0])[0];
    } else {
      assert Escape(s) + tail == tail;
    }
  }

  /** An escaped string, at the end of the text or before `|` or `)`, is read back as its own literals. */
  lemma {:induction false} ReadEscaped(s: string, tail: string)
    requires tail == "" || tail[0] in {'|', ')'}
    ensures ReadItems(Escape(s) + tail) == Some((Literals(s), tail))
  {
    if s == "" {
      assert Escape(s) + tail == tail;
    } else {
      var t := Escape(s[1..]) + tail;
      assert Escape(s) + tail == EscapeChar(s[0]) + t;
      ReadEscaped(s[1..], tail);
      EscapedHead(s[1..], tail);
      ReadEscapedChar(s[0], t);
      assert [Item(Literal(s[0]), false)] + Literals(s[1..]) == Literals(s);
    }
  }

  lemma {:induction false} LiteralsMatch(s: string, x: string)
    ensures FullMatch(Literals(s), x) <==> x == s
  {
    if s != "" {
      assert Literals(s)[1..] == Literals(s[1..]);
      if x != "" {
        LiteralsMatch(s[1..], x[1..]);
        assert x == s <==> x[0] == s[0] && x[1..] == s[1..] by {
          if x[0] == s[0] && x[1..] == s[1..] {
            assert x == [x[0]] + x[1..] && s == [s[0]] + s[1..];
          }
        }
      }
    }
  }

  /** `re.escape(s)` is a pattern that full-matches `s` and nothing else. */
  lemma EscapeMatchesOnlyItself(s: string, x: string)
    ensures ReadBranch(Escape(s)).Some?
    ensures FullMatch(ReadBranch(Escape(s)).value, x) <==> x == s
  {
    assert Escape(s) + "" == Escape(s);
    ReadEscaped(s, "");
    LiteralsMatch(s, x);
  }
}

/** Removing an address from comma-separated goto lists: the generated search pattern against list membership. */
module Gotos {
  import opened Text
  import opened Regex

  /** A piece of the search pattern: `(^|c)`, `($|c)`, or one character. */
  datatype Piece = StartOr(c: char) | EndOr(c: char) | One(atom: Atom)

  const START_OR_COMMA := "(^|,)"
  const END_OR_COMMA := "($|,)"

  /** The pattern deletion builds for an address. */
  function ListedPattern(u: string): string {
    START_OR_COMMA + Escape(u) + END_OR_COMMA
  }

  /** Reads a pattern of the two anchored groups and unstarred atoms; None when the text leaves this fragment. */
  function ReadPieces(r: string): Option<seq<Piece>>
    decreases |r|
  {
    if r == "" then Some([])
    else if START_OR_COMMA <= r then Prepend(StartOr(','), ReadPieces(r[|START_OR_COMMA|..]))
    else if END_OR_COMMA <= r then Prepend(EndOr(','), ReadPieces(r[|END_OR_COMMA|..]))
    else
      match ReadAtom(r)
      case None => None
      case Some((atom, rest)) => Prepend(One(atom), ReadPieces(rest))
  }

  function Prepend(p: Piece, rest: Option<seq<Piece>>): Option<seq<Piece>> {
    if rest == None then None else Some([p] + rest.value)
  }

  /** `$`: the end, or just before a final line feed. */
  predicate AtEnd(s: string, i: nat) {
    i == |s| || (i == |s| - 1 && s[i] == '\n')
  }

  /** A match of the pieces that starts at position `i`. */
  predicate MatchAt(pieces: seq<Piece>, s: string, i: nat)
    requires i <= |s|
    decreases |pieces|
  {
    if pieces == [] then true
    else if pieces[0].StartOr? then
      || (i == 0 && MatchAt(pieces[1..], s, i))
      || (i < |s| && s[i] == pieces[0].c && MatchAt(pieces[1..], s, i + 1))
    else if pieces[0].EndOr? then
      || (AtEnd(s, i) && MatchAt(pieces[1..], s, i))
      || (i < |s| && s[i] == pieces[0].c && MatchAt(pieces[1..], s, i + 1))
    else i < |s| && pieces[0].atom.Accepts(s[i]) && MatchAt(pieces[1..], s, i + 1)
  }

  /** `re.search`: a match somewhere. */
  predicate Search(pieces: seq<Piece>, s: string) {
    exists i :: 0 <= i <= |s| && MatchAt(pieces, s, i)
  }

  function OneEach(u: string): seq<Piece> {
    seq(|u|, i requires 0 <= i < |u| => One(Literal(u[i])))
  }

  /** One escaped character is read as one literal. */
  lemma ReadEscapedPiece(c: char, t: string)
    ensures ReadPieces(EscapeChar(c) + t) == Prepend(One(Literal(c)), ReadPieces(t))
  {
    var r := EscapeChar(c) + t;
    assert OPERATORS <= SPECIAL;
    assert r[|EscapeChar(c)|..] == t;
    assert r[0] != '(';
    assert !(START_OR_COMMA <= r) && !(END_OR_COMMA <= r);
    assert ReadAtom(r) == Some((Literal(c), t));
  }

  lemma ReadEnd()
    ensures ReadPieces(END_OR_COMMA) == Some([EndOr(',')])
  {
    assert END_OR_COMMA[1] == '$' && START_OR_COMMA[1] == '^';
    assert END_OR_COMMA[|END_OR_COMMA|..] == "";
    assert ReadPieces("") == Some([]);
    assert [EndOr(',')] + [] == [EndOr(',')];
  }

  lemma {:induction false} ReadEscapedPieces(u: string)
    ensures ReadPieces(Escape(u) + END_OR_COMMA) == Some(OneEach(u) + [EndOr(',')])
  {
    var tail := END_OR_COMMA;
    if u == "" {
      ReadEnd();
      assert Escape(u) + tail == tail;
      assert OneEach(u) + [EndOr(',')] == [EndOr(',')];
    } else {
      var t := Escape(u[1..]) + tail;
      assert Escape(u) + tail == EscapeChar(u[0]) + t;
      ReadEscapedPiece(u[0], t);
      ReadEscapedPieces(u[1..]);
      assert [One(Literal(u[0]))] + (OneEach(u[1..]) + [EndOr(',')]) == OneEach(u) + [EndOr(',')];
    }
  }

  lemma ReadListedPattern(u: string)
    ensures ReadPieces(ListedPattern(u)) == Some([StartOr(',')] + OneEach(u) + [EndOr(',')])
  {
    var rest := Escape(u) + END_OR_COMMA;
    assert ListedPattern(u) == START_OR_COMMA + rest;
    assert ListedPattern(u)[|START_OR_COMMA|..] == rest;
    ReadEscapedPieces(u);
    assert [StartOr(',')] + (OneEach(u) + [EndOr(',')]) == [StartOr(',')] + OneEach(u) + [EndOr(',')];
  }

  /** Where the address, and then the end of a field, are found. */
  predicate FieldEnds(s: string, j: nat) {
    AtEnd(s, j) || (j < |s| && s[j] == ',')
  }

  lemma {:induction false} MatchOnes(u: string, s: string, i: nat)
    requires i <= |s|
    ensures MatchAt(OneEach(u) + [EndOr(',')], s, i) <==> i + |u| <= |s| && s[i..i + |u|] == u && FieldEnds(s, i + |u|)
  {
    var pieces := OneEach(u) + [EndOr(',')];
    if u == "" {
      assert pieces == [EndOr(',')] && pieces[1..] == [];
    } else {
      assert pieces[1..] == OneEach(u[1..]) + [EndOr(',')];
      if i < |s| {
        MatchOnes(u[1..], s, i + 1);
        if i + |u| <= |s| {
          assert s[i..i + |u|] == [s[i]] + s[i + 1..i + |u|];
          assert u == [u[0]] + u[1..];
        }
      }
    }
  }

  /** The address stands in `s` from `p` on, as a field of its own. */
  predicate StandsAt(u: string, s: string, p: nat) {
    p + |u| <= |s| && (p == 0 || s[p - 1] == ',') && s[p..p + |u|] == u && FieldEnds(s, p + |u|)
  }

  ghost predicate Stands(u: string, s: string) {
    exists p: nat :: StandsAt(u, s, p)
  }

  lemma SearchFindsField(u: string, s: string)
    ensures Search([StartOr(',')] + OneEach(u) + [EndOr(',')], s) <==> Stands(u, s)
  {
    var pieces := [StartOr(',')] + OneEach(u) + [EndOr(',')];
    var rest := OneEach(u) + [EndOr(',')];
    assert pieces[1..] == rest;
    if i :| 0 <= i <= |s| && MatchAt(pieces, s, i) {
      if i == 0 && MatchAt(rest, s, i) {
        MatchOnes(u, s, i);
        assert StandsAt(u, s, 0);
      } else {
        MatchOnes(u, s, i + 1);
        assert StandsAt(u, s, i + 1);
      }
    }
    if p: nat :| StandsAt(u, s, p) {
      MatchOnes(u, s, p);
      assert MatchAt(pieces, s, if p == 0 then 0 else p - 1);
    }
  }

  /** The address is listed: a field equals it, or the last field is it and a line feed. */
  predicate Listed(u: string, fields: seq<string>)
    requires fields != []
  {
    u in fields || fields[|fields| - 1] == u + "\n"
  }

  lemma StandsInOnly(u: string, s: string)
    requires ',' !in u && ',' !in s
    ensures Stands(u, s) <==> s == u || s == u + "\n"
  {
    if p: nat :| StandsAt(u, s, p) {
      assert p == 0;
      assert s == s[..|u|] + s[|u|..];
    }
    if s == u || s == u + "\n" {
      assert s[..|u|] == u && s[0..|u|] == u;
      assert StandsAt(u, s, 0);
    }
  }

  lemma StandsInRest(u: string, s: string, i: nat)
    requires ',' !in u && i < |s| && s[i] == ',' && ',' !in s[..i]
    ensures Stands(u, s) <==> s[..i] == u || Stands(u, s[i + 1..])
  {
    if p: nat :| StandsAt(u, s, p) {
      if p <= i {
        StandsInFirst(u, s, p, i);
      } else {
        ShiftStand(u, s, p - (i + 1), i + 1);
        assert StandsAt(u, s[i + 1..], p - (i + 1));
      }
    }
    if s[..i] == u {
      assert s[0..|u|] == u;
      assert StandsAt(u, s, 0);
    }
    var t := s[i + 1..];
    if p: nat :| StandsAt(u, t, p) {
      ShiftStand(u, s, p, i + 1);
      assert StandsAt(u, s, p + (i + 1));
    }
  }

  lemma {:induction false} StandsInSplit(u: string, s: string)
    requires ',' !in u
    ensures Stands(u, s) <==> Listed(u, Split(s, ','))
    decreases |s|
  {
    if ',' !in s {
      StandsInOnly(u, s);
    } else {
      var i := IndexOf(s, ',');
      var rest := Split(s[i + 1..], ',');
      StandsInSplit(u, s[i + 1..]);
      StandsInRest(u, s, i);
      ListedMore(u, s[..i], rest);
    }
  }

  lemma ListedMore(u: string, first: string, rest: seq<string>)
    requires rest != []
    ensures Listed(u, [first] + rest) <==> first == u || Listed(u, rest)
  {
  }

  /** A field found before the first comma is the first field. */
  lemma StandsInFirst(u: string, s: string, p: nat, i: nat)
    requires ',' !in u && i < |s| && s[i] == ',' && ',' !in s[..i]
    requires p <= i && StandsAt(u, s, p)
    ensures s[..i] == u
  {
    assert forall k :: 0 <= k < i ==> s[..i][k] == s[k] && s[k] != ',';
    assert forall k :: 0 <= k < |u| ==> u[k] == s[p..p + |u|][k] && u[k] != ',';
    assert p == 0;
    assert forall k :: 0 <= k < |u| ==> u[k] == s[k];
  }

  lemma ShiftStand(u: string, s: string, p: nat, k: nat)
    requires 0 < k <= |s| && s[k - 1] == ','
    ensures StandsAt(u, s[k..], p) <==> StandsAt(u, s, p + k)
  {
    var t := s[k..];
    if p + |u| <= |t| {
      assert t[p..p + |u|] == s[p + k..p + k + |u|];
    }
  }

  /** The database search selects a goto list exactly when the address stands in it between commas or ends; for an
      address without a comma, exactly when it is listed. */
  lemma PatternFindsListed(u: string, goto: string)
    ensures ReadPieces(ListedPattern(u)).Some?
    ensures Search(ReadPieces(ListedPattern(u)).value, goto) <==> Stands(u, goto)
    ensures ',' !in u ==> (Stands(u, goto) <==> Listed(u, Split(goto, ',')))
  {
    ReadListedPattern(u);
    SearchFindsField(u, goto);
    if ',' !in u {
      StandsInSplit(u, goto);
    }
  }

  // ---- rewriting a list ----

  function Others(fields: seq<string>, u: string): seq<string> {
    if fields == [] then []
    else (if fields[0] == u then [] else [fields[0]]) + Others(fields[1..], u)
  }

  function Without(goto: string, u: string): string {
    Join(Others(Split(goto, ','), u), ',')
  }

  lemma {:induction false} OthersKeepsOthers(fields: seq<string>, u: string)
    ensures u !in Others(fields, u)
    ensures forall f :: f in Others(fields, u) ==> f in fields
    ensures multiset(Others(fields, u)) == multiset(fields)[u := 0]
    ensures u !in fields ==> Others(fields, u) == fields
  {
    if fields != [] {
      var rest := Others(fields[1..], u);
      OthersKeepsOthers(fields[1..], u);
      assert fields == [fields[0]] + fields[1..];
      assert multiset(fields) == multiset{fields[0]} + multiset(fields[1..]);
      if fields[0] == u {
        assert Others(fields, u) == rest;
      } else {
        assert Others(fields, u) == [fields[0]] + rest;
        assert multiset(Others(fields, u)) == multiset{fields[0]} + multiset(rest);
      }
    }
  }

  /** Others keep their order: removal acts on each part of a list separately. */
  lemma {:induction false} OthersKeepsOrder(a: seq<string>, b: seq<string>, u: string)
    ensures Others(a + b, u) == Others(a, u) + Others(b, u)
  {
    if a == [] {
      assert a + b == b;
    } else {
      assert (a + b)[1..] == a[1..] + b;
      OthersKeepsOrder(a[1..], b, u);
    }
  }

  /** What rewriting does to a list: the other addresses stay, in order and as often as before; the address is gone;
      a list that held nothing else becomes the empty string; a list without it is untouched. */
  lemma RewritingRemovesOnly(goto: string, u: string)
    requires u != ""
    ensures u !in Split(Without(goto, u), ',')
    ensures Others(Split(goto, ','), u) != [] ==> Split(Without(goto, u), ',') == Others(Split(goto, ','), u)
    ensures Others(Split(goto, ','), u) == [] ==> Without(goto, u) == ""
    ensures u !in Split(goto, ',') ==> Without(goto, u) == goto
  {
    var fields := Split(goto, ',');
    OthersKeepsOthers(fields, u);
    if Others(fields, u) != [] {
      SplitJoin(Others(fields, u), ',');
    }
  }
}

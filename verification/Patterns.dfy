/** Pattern building for rspamd: sender lists with `*` wildcards, and the alternation of allowed domains. */
module Patterns {
  import opened Text
  import opened Regex

  /** `re.escape(v).replace("\\*", ".*")`, as each list entry is compiled. */
  function CompileGlob(v: string): string {
    Replace(Escape(v), "\\*", ".*")
  }

  /** What a list entry means: `*` stands for any run without a line feed, everything else for itself. */
  ghost predicate GlobMatches(v: string, s: string) {
    if v == "" then s == ""
    else if v[0] == '*' then
      exists k :: 0 <= k <= |s| && '\n' !in s[..k] && GlobMatches(v[1..], s[k..])
    else s != "" && s[0] == v[0] && GlobMatches(v[1..], s[1..])
  }

  function GlobItem(c: char): Item {
    if c == '*' then Item(AnyChar, true) else Item(Literal(c), false)
  }

  function GlobItems(v: string): seq<Item> {
    seq(|v|, i requires 0 <= i < |v| => GlobItem(v[i]))
  }

  function CompileChar(c: char): string {
    if c == '*' then ".*" else EscapeChar(c)
  }

  /** An escaped text never starts with a bare `*`, so no replacement straddles two characters of the entry. */
  lemma EscapeHead(v: string)
    ensures Escape(v) == "" || Escape(v)[0] != '*'
  {
  }

  lemma CompileCons(v: string)
    requires v != ""
    ensures CompileGlob(v) == CompileChar(v[0]) + CompileGlob(v[1..])
  {
    var c, t := v[0], Escape(v[1..]);
    var e := EscapeChar(c) + t;
    EscapeHead(v[1..]);
    if c == '*' {
      assert e[..2] == "\\*" && e[2..] == t;
    } else if c in SPECIAL {
      assert e[1] == c && !("\\*" <= e);
      assert e[1..] == [c] + t;
      assert t != "" ==> e[1..][1] != '*';
      assert e[1..][1..] == t;
      assert Replace(e[1..], "\\*", ".*") == [c] + Replace(t, "\\*", ".*");
      assert [e[0]] + ([c] + Replace(t, "\\*", ".*")) == EscapeChar(c) + Replace(t, "\\*", ".*");
    } else {
      assert e == [c] + t && c != '\\';
      assert e[1..] == t;
    }
  }

  lemma CompiledHead(v: string)
    ensures CompileGlob(v) == "" || CompileGlob(v)[0] != '*'
  {
    if v != "" {
      CompileCons(v);
    }
  }

  /** The compiled text stays inside the fragment and is read back item by item. */
  lemma {:induction false} ReadCompiled(v: string)
    ensures ReadItems(CompileGlob(v)) == Some((GlobItems(v), ""))
  {
    if v == "" {
      assert GlobItems(v) == [];
    } else {
      var t := CompileGlob(v[1..]);
      CompileCons(v);
      ReadCompiled(v[1..]);
      CompiledHead(v[1..]);
      assert GlobItems(v) == [GlobItem(v[0])] + GlobItems(v[1..]);
      if v[0] == '*' {
        var r := ".*" + t;
        assert r[1..] == ['*'] + t && r[1..][1..] == t;
        assert ReadAtom(r) == Some((AnyChar, r[1..]));
        assert ReadItems(r) == Some(([Item(AnyChar, true)] + GlobItems(v[1..]), ""));
      } else {
        ReadEscapedChar(v[0], t);
        assert ReadItems(EscapeChar(v[0]) + t) == Some(([Item(Literal(v[0]), false)] + GlobItems(v[1..]), ""));
      }
    }
  }

  /** `.*` may take the first `k` characters, leaving the rest to the items after it. */
  predicate AbsorbsAt(rest: seq<Item>, s: string, k: nat) {
    k <= |s| && '\n' !in s[..k] && FullMatch(rest, s[k..])
  }

  lemma ShiftAbsorbs(rest: seq<Item>, s: string, k: nat)
    requires s != "" && s[0] != '\n'
    ensures AbsorbsAt(rest, s[1..], k) <==> AbsorbsAt(rest, s, k + 1)
  {
    if k + 1 <= |s| {
      assert s[..k + 1] == [s[0]] + s[1..][..k] && s[k + 1..] == s[1..][k..];
    }
  }

  lemma {:induction false} StarTakes(items: seq<Item>, s: string) returns (k: nat)
    requires items != [] && items[0] == Item(AnyChar, true) && FullMatch(items, s)
    ensures AbsorbsAt(items[1..], s, k)
    decreases |s|
  {
    if FullMatch(items[1..], s) {
      k := 0;
      assert s[0..] == s;
    } else {
      k := StarTakes(items, s[1..]);
      ShiftAbsorbs(items[1..], s, k);
      k := k + 1;
    }
  }

  lemma {:induction false} StarGives(items: seq<Item>, s: string, k: nat)
    requires items != [] && items[0] == Item(AnyChar, true) && AbsorbsAt(items[1..], s, k)
    ensures FullMatch(items, s)
    decreases k
  {
    if k == 0 {
      assert s[0..] == s;
    } else {
      assert s[..k][0] == s[0];
      ShiftAbsorbs(items[1..], s, k - 1);
      StarGives(items, s[1..], k - 1);
    }
  }

  /** One `.*` absorbs exactly the line-feed-free prefixes. */
  lemma StarAbsorbs(items: seq<Item>, s: string)
    requires items != [] && items[0] == Item(AnyChar, true)
    ensures FullMatch(items, s) <==> exists k: nat :: AbsorbsAt(items[1..], s, k)
  {
    if FullMatch(items, s) {
      var k := StarTakes(items, s);
    }
    if k: nat :| AbsorbsAt(items[1..], s, k) {
      StarGives(items, s, k);
    }
  }

  lemma {:induction false} GlobItemsMatch(v: string, s: string)
    ensures FullMatch(GlobItems(v), s) <==> GlobMatches(v, s)
    decreases |v|
  {
    if v != "" {
      assert GlobItems(v)[1..] == GlobItems(v[1..]);
      if v[0] == '*' {
        var rest := GlobItems(v[1..]);
        StarAbsorbs(GlobItems(v), s);
        forall k: nat | k <= |s| ensures FullMatch(rest, s[k..]) <==> GlobMatches(v[1..], s[k..]) {
          GlobItemsMatch(v[1..], s[k..]);
        }
        assert forall k: nat :: AbsorbsAt(rest, s, k) <==> k <= |s| && '\n' !in s[..k] && GlobMatches(v[1..], s[k..]);
      } else if s != "" {
        GlobItemsMatch(v[1..], s[1..]);
      }
    }
  }

  /** Compilation preserves meaning: every entry compiles to a readable pattern that full-matches `s`
      exactly when the entry, read as a glob, matches `s`. */
  lemma CompilePreservesMeaning(v: string, s: string)
    ensures ReadBranch(CompileGlob(v)).Some?
    ensures FullMatch(ReadBranch(CompileGlob(v)).value, s) <==> GlobMatches(v, s)
  {
    ReadCompiled(v);
    GlobItemsMatch(v, s);
  }

  function JoinEscaped(domains: seq<string>): string {
    if |domains| == 0 then ""
    else if |domains| == 1 then Escape(domains[0])
    else Escape(domains[0]) + "|" + JoinEscaped(domains[1..])
  }

  /** `get_allowed_domains_regex` on the sorted listing of the allowed set. */
  function AllowedDomainsRegex(allowed: seq<string>): string {
    if allowed == [] then "()" else "(" + JoinEscaped(allowed) + ")"
  }

  predicate AnyFullMatch(branches: seq<seq<Item>>, s: string) {
    exists b :: b in branches && FullMatch(b, s)
  }

  lemma {:induction false} ReadJoined(domains: seq<string>)
    requires domains != []
    ensures ReadAlternatives(JoinEscaped(domains) + ")") == Some(AllLiterals(domains))
  {
    var expected := AllLiterals(domains);
    if |domains| == 1 {
      ReadEscaped(domains[0], ")");
      assert expected == [Literals(domains[0])];
    } else {
      var rest := JoinEscaped(domains[1..]) + ")";
      var tail := "|" + rest;
      assert JoinEscaped(domains) + ")" == Escape(domains[0]) + tail;
      ReadEscaped(domains[0], tail);
      ReadJoined(domains[1..]);
      ReadMoreAlternatives(Escape(domains[0]) + tail, Literals(domains[0]), rest, AllLiterals(domains[1..]));
      assert expected == [Literals(domains[0])] + AllLiterals(domains[1..]);
    }
  }

  function AllLiterals(domains: seq<string>): seq<seq<Item>> {
    seq(|domains|, i requires 0 <= i < |domains| => Literals(domains[i]))
  }

  lemma ReadMoreAlternatives(r: string, items: seq<Item>, rest: string, more: seq<seq<Item>>)
    requires ReadItems(r) == Some((items, "|" + rest)) && ReadAlternatives(rest) == Some(more)
    ensures ReadAlternatives(r) == Some([items] + more)
  {
    assert ("|" + rest)[1..] == rest;
  }

  /** The allowed-domain pattern accepts the allowed names and nothing else, except that with no domain at all
      it is `()`, which accepts the empty string. */
  lemma AllowedDomainsExact(allowed: seq<string>, s: string)
    ensures ReadGroup(AllowedDomainsRegex(allowed)).Some?
    ensures AnyFullMatch(ReadGroup(AllowedDomainsRegex(allowed)).value, s) <==>
            s in allowed || (allowed == [] && s == "")
  {
    var r := AllowedDomainsRegex(allowed);
    if allowed == [] {
      assert r[1..] == ")";
      assert ReadGroup(r) == Some([[]]);
      assert FullMatch([], s) <==> s == "";
      assert [] in ReadGroup(r).value;
    } else {
      assert r[1..] == JoinEscaped(allowed) + ")";
      ReadJoined(allowed);
      var branches := ReadGroup(r).value;
      forall i | 0 <= i < |allowed| ensures branches[i] in branches &&
          (FullMatch(branches[i], s) <==> s == allowed[i]) {
        LiteralsMatch(allowed[i], s);
      }
    }
  }
}

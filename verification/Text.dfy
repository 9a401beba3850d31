/** String primitives the other modules share: an option type, and the split and join of delimited lists. */
module Text {

  datatype Option<+T> = None | Some(value: T)

  /** Position of the first `c` in `s`. */
  function IndexOf(s: string, c: char): (i: nat)
    requires c in s
    ensures i < |s| && s[i] == c && c !in s[..i]
  {
    if s[0] == c then 0 else
      var i := 1 + IndexOf(s[1..], c);
      assert s[..i] == [s[0]] + s[1..][..i - 1];
      i
  }

  /** The fields joined by `sep`, as `sep.join(parts)`. */
  function Join(parts: seq<string>, sep: char): string {
    if |parts| == 0 then ""
    else if |parts| == 1 then parts[0]
    else parts[0] + [sep] + Join(parts[1..], sep)
  }

  /** The fields of `s` between separators, as `s.split(sep)`: never empty, and "" has the one field "". */
  function Split(s: string, sep: char): (parts: seq<string>)
    ensures |parts| > 0
    ensures forall p :: p in parts ==> sep !in p
    ensures Join(parts, sep) == s
  {
    if sep !in s then [s]
    else
      var i := IndexOf(s, sep);
      var rest := Split(s[i + 1..], sep);
      assert ([s[..i]] + rest)[1..] == rest;
      assert s == s[..i] + [sep] + s[i + 1..];
      [s[..i]] + rest
  }

  lemma FirstAfterPrefix(p: string, c: char, t: string)
    requires c !in p
    ensures IndexOf(p + [c] + t, c) == |p|
    ensures (p + [c] + t)[..|p|] == p && (p + [c] + t)[|p| + 1..] == t
  {
    var s := p + [c] + t;
    assert s[|p|] == c;
    var i := IndexOf(s, c);
    assert forall k :: 0 <= k < |p| ==> s[k] == p[k] && s[k] != c;
    assert forall j :: |p| < j <= |s| ==> s[..j][|p|] == c;
  }

  lemma SplitFirst(p: string, t: string, sep: char)
    requires sep !in p
    ensures Split(p + [sep] + t, sep) == [p] + Split(t, sep)
  {
    FirstAfterPrefix(p, sep, t);
    assert (p + [sep] + t)[|p|] == sep;
  }

  /** Splitting undoes joining: a non-empty list of separator-free fields is read back exactly. */
  lemma {:induction false} SplitJoin(parts: seq<string>, sep: char)
    requires |parts| > 0 && forall p :: p in parts ==> sep !in p
    ensures Split(Join(parts, sep), sep) == parts
  {
    if |parts| > 1 {
      SplitJoin(parts[1..], sep);
      SplitFirst(parts[0], Join(parts[1..], sep), sep);
    }
  }

  /** Position of the last `c` in `s`. */
  function LastIndexOf(s: string, c: char): (i: nat)
    requires c in s
    ensures i < |s| && s[i] == c && c !in s[i + 1..]
  {
    if s[|s| - 1] == c then |s| - 1 else
      var i := LastIndexOf(s[..|s| - 1], c);
      assert s[i + 1..] == s[..|s| - 1][i + 1..] + [s[|s| - 1]];
      i
  }

  /** ASCII white space, as `str.isspace` sees it. */
  predicate IsSpace(c: char) {
    '\t' <= c <= '\r' || '\U{001C}' <= c <= ' '
  }

  /** Tab, line feed, vertical tab, form feed, carriage return, the four separators, and the blank. */
  lemma SpacesListed(c: char)
    ensures IsSpace(c) <==>
            c in {'\t', '\n', '\U{000B}', '\U{000C}', '\r', '\U{001C}', '\U{001D}', '\U{001E}', '\U{001F}', ' '}
  {
    assert '\t' <= c <= '\r' ==> c in {'\t', '\n', '\U{000B}', '\U{000C}', '\r'};
  }

  /** The length of the white-space-free prefix of `s`. */
  function WordLength(s: string): (n: nat)
    ensures n <= |s|
  {
    if s == "" || IsSpace(s[0]) then 0 else 1 + WordLength(s[1..])
  }

  /** `s.split()`: the maximal runs without white space. */
  function Words(s: string): seq<string>
    decreases |s|
  {
    if s == "" then []
    else if IsSpace(s[0]) then Words(s[1..])
    else
      var n := WordLength(s);
      [s[..n]] + Words(s[n..])
  }

  lemma {:induction false} WordLengthIsMaximal(s: string)
    ensures forall i :: 0 <= i < WordLength(s) ==> !IsSpace(s[i])
    ensures WordLength(s) < |s| ==> IsSpace(s[WordLength(s)])
  {
    if s != "" && !IsSpace(s[0]) {
      WordLengthIsMaximal(s[1..]);
    }
  }

  /** Words are non-empty and contain no white space. */
  lemma {:induction false} WordsAreSolid(s: string, k: nat)
    requires k < |Words(s)|
    ensures Words(s)[k] != "" && forall i :: 0 <= i < |Words(s)[k]| ==> !IsSpace(Words(s)[k][i])
    decreases |s|
  {
    if IsSpace(s[0]) {
      WordsAreSolid(s[1..], k);
    } else if k == 0 {
      WordLengthIsMaximal(s);
    } else {
      WordsAreSolid(s[WordLength(s)..], k - 1);
    }
  }

  /** Non-empty and free of white space. */
  predicate IsWord(w: string) {
    w != "" && forall i :: 0 <= i < |w| ==> !IsSpace(w[i])
  }

  lemma {:induction false} WordLengthOf(w: string, rest: string)
    requires forall i :: 0 <= i < |w| ==> !IsSpace(w[i])
    requires rest == "" || IsSpace(rest[0])
    ensures WordLength(w + rest) == |w|
  {
    if w == "" {
      assert w + rest == rest;
    } else {
      assert (w + rest)[1..] == w[1..] + rest;
      WordLengthOf(w[1..], rest);
    }
  }

  /** Splitting at white space undoes joining words by blanks. */
  lemma {:induction false} WordsOfJoin(words: seq<string>)
    requires forall w :: w in words ==> IsWord(w)
    ensures Words(Join(words, ' ')) == words
  {
    if |words| > 0 {
      var w, tail := words[0], words[1..];
      var rest := if tail == [] then "" else " " + Join(tail, ' ');
      var s := w + rest;
      assert w in words && forall x :: x in tail ==> x in words;
      assert Join(words, ' ') == s && s[0] == w[0];
      WordLengthOf(w, rest);
      assert s[..|w|] == w && s[|w|..] == rest;
      WordsOfJoin(tail);
      if tail != [] {
        assert rest[1..] == Join(tail, ' ');
      }
      assert words == [w] + tail;
    }
  }

  /** `xs` lists the set `s`, each element once. */
  ghost predicate Lists<T(!new)>(xs: seq<T>, s: set<T>) {
    (forall x :: x in xs <==> x in s) && forall i, j :: 0 <= i < j < |xs| ==> xs[i] != xs[j]
  }

  /** Iteration over a set, in some order. */
  method ListSet<T(==, !new)>(s: set<T>) returns (xs: seq<T>)
    ensures Lists(xs, s)
  {
    xs := [];
    var left := s;
    while left != {}
      invariant left <= s && Lists(xs, s - left)
    {
      var x :| x in left;
      xs := xs + [x];
      left := left - {x};
    }
  }
}

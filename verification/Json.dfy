/** The JSON text of a dict of strings, as `json.dumps` writes it (ASCII only), and its reader. */
module Json {
  import opened Text
  import opened Stores

  function HexDigit(n: nat): char
    requires n < 16
  {
    if n < 10 then '0' + n as char else 'a' + (n - 10) as char
  }

  function HexValue(c: char): Option<nat> {
    if '0' <= c <= '9' then Some((c - '0') as nat)
    else if 'a' <= c <= 'f' then Some((c - 'a') as nat + 10)
    else if 'A' <= c <= 'F' then Some((c - 'A') as nat + 10)
    else None
  }

  function Hex4(n: nat): string
    requires n < 0x10000
  {
    var q1, q2, q3 := n / 16, n / 16 / 16, n / 16 / 16 / 16;
    [HexDigit(q3), HexDigit(q2 % 16), HexDigit(q1 % 16), HexDigit(n % 16)]
  }

  function ReadHex4(t: string): Option<nat> {
    if |t| < 4 then None
    else
      match (HexValue(t[0]), HexValue(t[1]), HexValue(t[2]), HexValue(t[3]))
      case (Some(a), Some(b), Some(c), Some(d)) => Some(4096 * a + 256 * b + 16 * c + d)
      case _ => None
  }

  lemma ReadDigits(a: nat, b: nat, c: nat, d: nat, t: string)
    requires a < 16 && b < 16 && c < 16 && d < 16
    ensures ReadHex4([HexDigit(a), HexDigit(b), HexDigit(c), HexDigit(d)] + t) == Some(4096 * a + 256 * b + 16 * c + d)
  {
    HexDigitValue(a);
    HexDigitValue(b);
    HexDigitValue(c);
    HexDigitValue(d);
  }

  lemma HexRoundTrip(n: nat, t: string)
    requires n < 0x10000
    ensures ReadHex4(Hex4(n) + t) == Some(n)
  {
    var q1, q2, q3 := n / 16, n / 16 / 16, n / 16 / 16 / 16;
    ReadDigits(q3, q2 % 16, q1 % 16, n % 16, t);
    assert n == 16 * q1 + n % 16 && q1 == 16 * q2 + q1 % 16 && q2 == 16 * q3 + q2 % 16;
  }

  lemma HexDigitValue(n: nat)
    requires n < 16
    ensures HexValue(HexDigit(n)) == Some(n)
  {
  }

  function UnicodeEscape(n: nat): string
    requires n < 0x10000
  {
    "\\u" + Hex4(n)
  }

  function SurrogatePair(n: nat): string
    requires n < 0x100000
  {
    UnicodeEscape(0xD800 + n / 0x400) + UnicodeEscape(0xDC00 + n % 0x400)
  }

  /** Escapes for quotes, backslash and controls; `\u` for everything outside printable ASCII, in surrogate pairs
      beyond the basic plane. */
  function EscapeChar(c: char): string {
    if c == '"' then "\\\""
    else if c == '\\' then "\\\\"
    else if c == '\n' then "\\n"
    else if c == '\r' then "\\r"
    else if c == '\t' then "\\t"
    else if c == '\U{0008}' then "\\b"
    else if c == '\U{000C}' then "\\f"
    else if ' ' <= c <= '~' then [c]
    else if c as int < 0x10000 then UnicodeEscape(c as int)
    else SurrogatePair(c as int - 0x10000)
  }

  function EscapeAll(s: string): string {
    if s == "" then "" else EscapeChar(s[0]) + EscapeAll(s[1..])
  }

  function Quote(s: string): string {
    "\"" + EscapeAll(s) + "\""
  }

  /** The character an escape code stands for. */
  function Unescaped(code: char): Option<char> {
    if code in {'"', '\\', '/'} then Some(code)
    else if code == 'n' then Some('\n')
    else if code == 'r' then Some('\r')
    else if code == 't' then Some('\t')
    else if code == 'b' then Some('\U{0008}')
    else if code == 'f' then Some('\U{000C}')
    else None
  }

  /** A `\u` escape: its code, and what follows decides whether it is half of a pair. */
  function ReadUnicode(t: string): Option<(char, string)>
    requires |t| >= 2
  {
    if |t| < 6 then None
    else
      match ReadHex4(t[2..])
      case None => None
      case Some(n) => Combine(n, t[6..])
  }

  /** A code outside the surrogates is a character; a high surrogate needs the low one right after it. */
  function Combine(n: nat, rest: string): Option<(char, string)> {
    if n < 0xD800 || 0xE000 <= n < 0x10000 then Some((n as char, rest))
    else if 0xD800 <= n < 0xDC00 && |rest| >= 6 && rest[0] == '\\' && rest[1] == 'u' then
      match ReadHex4(rest[2..])
      case None => None
      case Some(m) =>
        if 0xDC00 <= m < 0xE000 then Some(((0x10000 + (n - 0xD800) * 0x400 + (m - 0xDC00)) as char, rest[6..]))
        else None
    else None
  }

  function ReadChar(t: string): (r: Option<(char, string)>)
    ensures r.Some? ==> |r.value.1| < |t|
  {
    if t == "" then None
    else if t[0] < ' ' then None
    else if t[0] != '\\' then Some((t[0], t[1..]))
    else if |t| == 1 then None
    else if t[1] == 'u' then ReadUnicode(t)
    else match Unescaped(t[1]) case None => None case Some(c) => Some((c, t[2..]))
  }

  /** The rest of a string literal, up to its closing quote. */
  function ReadString(t: string): (r: Option<(string, string)>)
    ensures r.Some? ==> |r.value.1| < |t|
    decreases |t|
  {
    if t == "" then None
    else if t[0] == '"' then Some(("", t[1..]))
    else
      match ReadChar(t)
      case None => None
      case Some((c, rest)) =>
        match ReadString(rest)
        case None => None
        case Some((s, tail)) => Some(([c] + s, tail))
  }

  lemma AfterEscape(n: nat, t: string)
    requires n < 0x10000
    ensures var e := UnicodeEscape(n) + t;
            |e| >= 6 && e[0] == '\\' && e[1] == 'u' && ReadHex4(e[2..]) == Some(n) && e[6..] == t
  {
    var e := UnicodeEscape(n) + t;
    assert e[2..] == Hex4(n) + t;
    HexRoundTrip(n, t);
  }

  lemma PairedEscapes(high: nat, low: nat, t: string)
    requires high < 0x400 && low < 0x400
    ensures ReadChar(UnicodeEscape(0xD800 + high) + (UnicodeEscape(0xDC00 + low) + t)) ==
            Some(((0x10000 + high * 0x400 + low) as char, t))
  {
    var rest := UnicodeEscape(0xDC00 + low) + t;
    AfterEscape(0xD800 + high, rest);
    AfterEscape(0xDC00 + low, t);
    CombineHalves(high, low, rest, t);
  }

  lemma CombineHalves(high: nat, low: nat, rest: string, t: string)
    requires high < 0x400 && low < 0x400
    requires |rest| >= 6 && rest[0] == '\\' && rest[1] == 'u' && ReadHex4(rest[2..]) == Some(0xDC00 + low) &&
             rest[6..] == t
    ensures Combine(0xD800 + high, rest) == Some(((0x10000 + high * 0x400 + low) as char, t))
  {
  }

  lemma PlainCharRoundTrip(c: char, t: string)
    requires c in {'"', '\\', '\n', '\r', '\t', '\U{0008}', '\U{000C}'} || ' ' <= c <= '~'
    ensures ReadChar(EscapeChar(c) + t) == Some((c, t))
  {
    var e := EscapeChar(c) + t;
    if |EscapeChar(c)| == 2 {
      assert e[2..] == t && e[0] == '\\' && e[1] == EscapeChar(c)[1];
    } else {
      assert e[1..] == t;
    }
  }

  lemma CharRoundTrip(c: char, t: string)
    ensures ReadChar(EscapeChar(c) + t) == Some((c, t))
  {
    if c in {'"', '\\', '\n', '\r', '\t', '\U{0008}', '\U{000C}'} || ' ' <= c <= '~' {
      PlainCharRoundTrip(c, t);
    } else if c as int < 0x10000 {
      AfterEscape(c as int, t);
    } else {
      HighCharRoundTrip(c as int - 0x10000, t);
    }
  }

  lemma HighCharRoundTrip(n: nat, t: string)
    requires n < 0x100000
    ensures ReadChar(SurrogatePair(n) + t) == Some(((0x10000 + n) as char, t))
  {
    var high, low := n / 0x400, n % 0x400;
    var first, second := UnicodeEscape(0xD800 + high), UnicodeEscape(0xDC00 + low);
    assert n == high * 0x400 + low;
    assert SurrogatePair(n) + t == first + (second + t);
    PairedEscapes(high, low, t);
  }

  lemma EscapeHead(c: char)
    ensures EscapeChar(c) != "" && EscapeChar(c)[0] != '"'
  {
  }

  lemma ReadNextChar(c: char, rest: string)
    ensures ReadString(EscapeChar(c) + rest) ==
            match ReadString(rest)
            case None => None
            case Some((s, tail)) => Some(([c] + s, tail))
  {
    CharRoundTrip(c, rest);
    EscapeHead(c);
    assert (EscapeChar(c) + rest)[0] == EscapeChar(c)[0];
  }

  lemma Reassociate(a: string, b: string, c: string, d: string)
    ensures (a + b) + c + d == a + (b + c + d)
  {
  }

  lemma {:induction false} StringRoundTrip(s: string, t: string)
    ensures ReadString(EscapeAll(s) + "\"" + t) == Some((s, t))
  {
    if s == "" {
      assert EscapeAll(s) + "\"" + t == "\"" + t;
      assert ("\"" + t)[1..] == t;
    } else {
      Reassociate(EscapeChar(s[0]), EscapeAll(s[1..]), "\"", t);
      StringRoundTrip(s[1..], t);
      ReadNextChar(s[0], EscapeAll(s[1..]) + "\"" + t);
      assert [s[0]] + s[1..] == s;
    }
  }

  function Pair(p: (string, string)): string {
    Quote(p.0) + ": " + Quote(p.1)
  }

  /** The pairs and the closing brace. */
  function Body(d: Dict): string
    requires d != []
  {
    if |d| == 1 then Pair(d[0]) + "}" else Pair(d[0]) + (", " + Body(d[1..]))
  }

  function Dumps(d: Dict): string {
    if d == [] then "{}" else "{" + Body(d)
  }

  function ReadQuoted(t: string): (r: Option<(string, string)>)
    ensures r.Some? ==> |r.value.1| < |t|
  {
    if t != "" && t[0] == '"' then ReadString(t[1..]) else None
  }

  /** `"key": "value"`. */
  function ReadPair(t: string): (r: Option<((string, string), string)>)
    ensures r.Some? ==> |r.value.1| < |t|
  {
    match ReadQuoted(t)
    case None => None
    case Some((k, rest)) =>
      if |rest| < 2 || rest[..2] != ": " then None
      else
        match ReadQuoted(rest[2..])
        case None => None
        case Some((v, tail)) => Some(((k, v), tail))
  }

  /** One or more pairs, up to the closing brace that ends the text. */
  function ReadPairs(t: string): Option<Dict>
    decreases |t|
  {
    match ReadPair(t)
    case None => None
    case Some((p, rest)) =>
      if rest == "}" then Some([p])
      else if |rest| < 2 || rest[..2] != ", " then None
      else
        match ReadPairs(rest[2..])
        case None => None
        case Some(more) => Some([p] + more)
  }

  function ReadDict(t: string): Option<Dict> {
    if t == "{}" then Some([])
    else if t != "" && t[0] == '{' then ReadPairs(t[1..])
    else None
  }

  lemma QuotedRoundTrip(s: string, t: string)
    ensures ReadQuoted(Quote(s) + t) == Some((s, t))
  {
    assert (Quote(s) + t)[1..] == EscapeAll(s) + "\"" + t;
    StringRoundTrip(s, t);
  }

  lemma PairRoundTrip(p: (string, string), t: string)
    ensures ReadPair(Pair(p) + t) == Some((p, t))
  {
    var rest := ": " + Quote(p.1) + t;
    assert Pair(p) + t == Quote(p.0) + rest;
    QuotedRoundTrip(p.0, rest);
    assert rest[..2] == ": " && rest[2..] == Quote(p.1) + t;
    QuotedRoundTrip(p.1, t);
  }

  lemma ReadNextPair(p: (string, string), more: string)
    ensures ReadPairs(Pair(p) + (", " + more)) ==
            match ReadPairs(more)
            case None => None
            case Some(rest) => Some([p] + rest)
  {
    var tail := ", " + more;
    PairRoundTrip(p, tail);
    assert tail[..2] == ", " && tail[2..] == more && |tail| != 1;
  }

  lemma ReadLastPair(p: (string, string))
    ensures ReadPairs(Pair(p) + "}") == Some([p])
  {
    PairRoundTrip(p, "}");
  }

  lemma {:induction false} PairsRoundTrip(d: Dict)
    requires d != []
    ensures ReadPairs(Body(d)) == Some(d)
  {
    if |d| == 1 {
      ReadLastPair(d[0]);
      assert d == [d[0]];
    } else {
      PairsRoundTrip(d[1..]);
      ReadNextPair(d[0], Body(d[1..]));
      assert d == [d[0]] + d[1..];
    }
  }

  /** Every dict of strings is read back from its JSON text, fields in order. */
  lemma DictRoundTrip(d: Dict)
    ensures ReadDict(Dumps(d)) == Some(d)
  {
    if d != [] {
      var t := Dumps(d);
      assert t[1..] == Body(d) && t[1] == Body(d)[0] == Pair(d[0])[0] == '"';
      PairsRoundTrip(d);
    }
  }

  /** Any decoder that reads these texts: `other` decides all remaining texts. */
  function CodecWith(other: string -> Loaded): Codec {
    Codec(d => Dumps(d), t => match ReadDict(t) case Some(d) => Object(d) case None => other(t))
  }

  /** The law the stores rely on holds of the JSON texts themselves. */
  lemma CodecIsLawful(other: string -> Loaded)
    ensures CodecWith(other).Lawful()
  {
    forall d | DistinctFields(d) ensures CodecWith(other).loads(CodecWith(other).dumps(d)) == Object(d) {
      DictRoundTrip(d);
    }
  }

  predicate IsPrintable(s: string) {
    forall i :: 0 <= i < |s| ==> ' ' <= s[i] <= '~' && s[i] != '"' && s[i] != '\\'
  }

  lemma {:induction false} PrintableIsKept(s: string)
    requires IsPrintable(s)
    ensures EscapeAll(s) == s
  {
    if s != "" {
      PrintableIsKept(s[1..]);
      assert s == [s[0]] + s[1..];
    }
  }

  /** A pair of printable texts, as `json.dumps` spaces it. */
  lemma PairForm(f: string, v: string)
    requires IsPrintable(f) && IsPrintable(v)
    ensures Pair((f, v)) == ("\"" + f + "\"") + ": " + ("\"" + v + "\"")
  {
    PrintableIsKept(f);
    PrintableIsKept(v);
  }

  /** And the pairs of a dict. */
  lemma DumpsForm(p: (string, string), q: (string, string))
    ensures Dumps([]) == "{}" && Dumps([p]) == "{" + (Pair(p) + "}")
    ensures Dumps([p, q]) == "{" + (Pair(p) + (", " + (Pair(q) + "}")))
  {
    var d := [p, q];
    assert d[0] == p && d[1..] == [q] && [q][0] == q;
    assert Body([q]) == Pair(q) + "}";
    assert Body(d) == Pair(p) + (", " + Body([q]));
  }
}

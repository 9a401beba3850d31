/** Netstrings on a byte stream and the socketmap request loop over them. */
module Netstrings {
  import opened Text
  import opened Utf8

  const COLON: byte := 58
  const COMMA: byte := 44
  const UNDERSCORE: byte := 95
  const PLUS: byte := 43
  const MINUS: byte := 45

  // ---- decimal numbers ----

  predicate IsDigit(b: byte) {
    48 <= b < 58
  }

  /** The decimal digits of a number. */
  function Decimal(n: nat): (r: seq<byte>)
    ensures r != [] && forall b :: b in r ==> IsDigit(b)
  {
    if n < 10 then [48 + n] else Decimal(n / 10) + [48 + n % 10]
  }

  predicate IsSpaceByte(b: byte) {
    9 <= b <= 13 || b == 32
  }

  function StripBytes(s: seq<byte>): seq<byte> {
    if s == [] then []
    else if IsSpaceByte(s[0]) then StripBytes(s[1..])
    else if IsSpaceByte(s[|s| - 1]) then StripBytes(s[..|s| - 1])
    else s
  }

  /** Digits, with single underscores allowed between them. */
  function ParseDigits(s: seq<byte>, acc: nat): Option<nat> {
    if s == [] then Some(acc)
    else if IsDigit(s[0]) then ParseDigits(s[1..], acc * 10 + (s[0] - 48))
    else if s[0] == UNDERSCORE && |s| > 1 && IsDigit(s[1]) then ParseDigits(s[1..], acc)
    else None
  }

  function ParseNatural(s: seq<byte>): Option<nat> {
    if s == [] || !IsDigit(s[0]) then None else ParseDigits(s, 0)
  }

  /** `int(text)`: white space around, an optional sign, then digits; None when it raises. */
  function ParseInt(text: seq<byte>): Option<int> {
    var s := StripBytes(text);
    if s != [] && s[0] == MINUS then
      var n := ParseNatural(s[1..]);
      if n == None then None
      else
        var value: int := n.value;
        Some(-value)
    else
      var n := ParseNatural(if s != [] && s[0] == PLUS then s[1..] else s);
      if n == None then None else Some(n.value)
  }

  lemma {:induction false} ParseDecimal(n: nat, t: seq<byte>)
    ensures ParseDigits(Decimal(n) + t, 0) == ParseDigits(t, n)
  {
    if n < 10 {
      assert ([(48 + n) as byte] + t)[1..] == t;
    } else {
      var last: byte := 48 + n % 10;
      ParseDecimal(n / 10, [last] + t);
      assert Decimal(n) + t == Decimal(n / 10) + ([last] + t);
      assert ([last] + t)[1..] == t;
    }
  }

  /** A printed length is read back. */
  lemma ParsePrinted(n: nat)
    ensures ParseInt(Decimal(n)) == Some(n)
  {
    var d := Decimal(n);
    assert d[0] in d && d[|d| - 1] in d;
    ParseDecimal(n, []);
    assert d + [] == d;
  }

  /** A sign before the digits is read. */
  lemma SignsAreRead(n: nat)
    ensures ParseInt([PLUS] + Decimal(n)) == Some(n)
    ensures ParseInt([MINUS] + Decimal(n)) == Some(-(n as int))
  {
    var d := Decimal(n);
    assert d[0] in d && d[|d| - 1] in d;
    ParseDecimal(n, []);
    assert d + [] == d;
    assert ([PLUS] + d)[1..] == d && ([MINUS] + d)[1..] == d;
    assert ([PLUS] + d)[|d|] == d[|d| - 1] && ([MINUS] + d)[|d|] == d[|d| - 1];
  }

  lemma {:induction false} StripSpaced(before: seq<byte>, d: seq<byte>, after: seq<byte>)
    requires (forall b :: b in before ==> IsSpaceByte(b)) && (forall b :: b in after ==> IsSpaceByte(b))
    requires d != [] && !IsSpaceByte(d[0]) && !IsSpaceByte(d[|d| - 1])
    ensures StripBytes(before + d + after) == d
    decreases |before| + |after|
  {
    var s := before + d + after;
    if before != [] {
      assert before[0] in before && forall b :: b in before[1..] ==> b in before;
      assert s[1..] == before[1..] + d + after;
      StripSpaced(before[1..], d, after);
    } else if after != [] {
      var front := after[..|after| - 1];
      assert after[|after| - 1] in after && forall b :: b in front ==> b in after;
      assert s[..|s| - 1] == before + d + front && s[0] == d[0];
      StripSpaced(before, d, front);
    } else {
      assert s == d;
    }
  }

  /** White space around a number changes nothing. */
  lemma SpaceIsStripped(before: seq<byte>, n: nat, after: seq<byte>)
    requires (forall b :: b in before ==> IsSpaceByte(b)) && (forall b :: b in after ==> IsSpaceByte(b))
    ensures ParseInt(before + Decimal(n) + after) == Some(n)
  {
    var d := Decimal(n);
    assert d[0] in d && d[|d| - 1] in d;
    StripSpaced(before, d, after);
    StripSpaced([], d, []);
    assert [] + d + [] == d;
    ParsePrinted(n);
  }

  /** An underscore between digits changes nothing. */
  lemma UnderscoreIsSkipped(n: nat, t: seq<byte>)
    requires t != [] && IsDigit(t[0])
    ensures ParseDigits(Decimal(n) + [UNDERSCORE] + t, 0) == ParseDigits(Decimal(n) + t, 0)
  {
    ParseDecimal(n, [UNDERSCORE] + t);
    ParseDecimal(n, t);
    Regroup(Decimal(n), [UNDERSCORE], t);
    SkipUnderscore(t, n);
  }

  lemma SkipUnderscore(t: seq<byte>, acc: nat)
    requires t != [] && IsDigit(t[0])
    ensures ParseDigits([UNDERSCORE] + t, acc) == ParseDigits(t, acc)
  {
    assert ([UNDERSCORE] + t)[1..] == t;
  }

  // ---- netstrings ----

  function Write(data: string): seq<byte> {
    Decimal(|Encode(data)|) + [COLON] + Encode(data) + [COMMA]
  }

  function WriteAll(payloads: seq<string>): seq<byte> {
    if payloads == [] then [] else Write(payloads[0]) + WriteAll(payloads[1..])
  }

  /** Bytes before the first colon; all of them when there is none. */
  function UpToColon(s: seq<byte>): (n: nat)
    ensures n <= |s|
    ensures COLON !in s[..n] && (n < |s| ==> s[n] == COLON)
  {
    if s == [] || s[0] == COLON then 0
    else
      var n := 1 + UpToColon(s[1..]);
      assert s[..n] == [s[0]] + s[1..][..n - 1];
      n
  }

  /** Reading one netstring: its text and what is left, the stream's end in the middle, or an error raised. */
  datatype Read = Payload(data: string, rest: seq<byte>) | Incomplete | Bad

  function ReadOne(s: seq<byte>): (r: Read)
    ensures r.Payload? ==> |r.rest| < |s|
  {
    var colon := UpToColon(s);
    if colon == |s| then Incomplete
    else
      var length, body := ParseInt(s[..colon]), s[colon + 1..];
      if length == None || length.value < 0 then Bad
      else if |body| < length.value + 1 then Incomplete
      else
        var text := Decode(body[..length.value]);
        if text == None then Bad else Payload(text.value, body[length.value + 1..])
  }

  /** The payloads read until the stream ends or reading raises, and whether it raised. */
  function ReadAll(s: seq<byte>): (seq<string>, bool)
    decreases |s|
  {
    var r := ReadOne(s);
    if r.Incomplete? then ([], false)
    else if r.Bad? then ([], true)
    else
      var (more, raised) := ReadAll(r.rest);
      ([r.data] + more, raised)
  }

  lemma ColonAfter(len: seq<byte>, t: seq<byte>)
    requires COLON !in len
    ensures UpToColon(len + [COLON] + t) == |len|
    ensures (len + [COLON] + t)[..|len|] == len && (len + [COLON] + t)[|len| + 1..] == t
  {
    var s := len + [COLON] + t;
    var n := UpToColon(s);
    assert s[|len|] == COLON;
    assert forall i :: 0 <= i < |len| ==> s[i] == len[i] && s[i] != COLON;
    assert forall j :: |len| < j <= |s| ==> s[..j][|len|] == COLON;
  }

  /** The number that digits spell in base ten. */
  function ValueOf(digits: seq<byte>): int {
    if digits == [] then 0
    else ValueOf(digits[..|digits| - 1]) * 10 + (digits[|digits| - 1] as int - '0' as int)
  }

  lemma {:induction false} DecimalForm(n: nat)
    ensures ValueOf(Decimal(n)) == n
    ensures n > 0 ==> Decimal(n)[0] as int != '0' as int
  {
    if n >= 10 {
      DecimalForm(n / 10);
      assert Decimal(n)[..|Decimal(n)| - 1] == Decimal(n / 10);
    }
  }

  /** What is written: the number of bytes in base ten without leading zeros, a colon, the bytes, a comma. */
  lemma WrittenForm(data: string) returns (digits: seq<byte>)
    ensures Write(data) == digits + [':' as int] + Encode(data) + [',' as int]
    ensures (forall b :: b in digits ==> '0' as int <= b <= '9' as int) && ValueOf(digits) == |Encode(data)|
    ensures |Encode(data)| > 0 ==> digits[0] as int != '0' as int
  {
    digits := Decimal(|Encode(data)|);
    DecimalForm(|Encode(data)|);
  }

  /** A netstring as the reader takes it: any spelling of the length, any byte in place of the comma. */
  function Framed(len: seq<byte>, data: string, terminator: byte): seq<byte> {
    len + [COLON] + Encode(data) + [terminator]
  }

  predicate SpellsLength(len: seq<byte>, data: string) {
    COLON !in len && ParseInt(len) == Some(|Encode(data)|)
  }

  lemma BodyParts(text: seq<byte>, terminator: byte, rest: seq<byte>)
    ensures var body := text + [terminator] + rest;
            |body| > |text| && body[..|text|] == text && body[|text| + 1..] == rest
  {
  }

  /** Reading goes by the length before the colon. */
  lemma ReadAfterColon(len: seq<byte>, body: seq<byte>, n: nat, data: string)
    requires COLON !in len && ParseInt(len) == Some(n) && n < |body| && Decode(body[..n]) == Some(data)
    ensures ReadOne(len + [COLON] + body) == Payload(data, body[n + 1..])
  {
    ColonAfter(len, body);
  }

  lemma ReadFramed(len: seq<byte>, data: string, terminator: byte, rest: seq<byte>)
    requires SpellsLength(len, data)
    ensures ReadOne(Framed(len, data, terminator) + rest) == Payload(data, rest)
  {
    var text := Encode(data);
    var body := text + [terminator] + rest;
    DecodeEncode(data);
    BodyParts(text, terminator, rest);
    ReadAfterColon(len, body, |text|, data);
    Regroup(len + [COLON] + text, [terminator], rest);
    Regroup(len + [COLON], text, [terminator] + rest);
    Regroup(text, [terminator], rest);
  }

  lemma ReadTakesApart(s: seq<byte>) returns (len: seq<byte>, terminator: byte)
    requires ReadOne(s).Payload?
    ensures SpellsLength(len, ReadOne(s).data) && s == Framed(len, ReadOne(s).data, terminator) + ReadOne(s).rest
  {
    var colon := UpToColon(s);
    var n, body := ParseInt(s[..colon]).value, s[colon + 1..];
    EncodeDecode(body[..n]);
    len, terminator := s[..colon], body[n];
    Reassemble(s, colon, n);
  }

  lemma Reassemble(s: seq<byte>, colon: nat, n: nat)
    requires colon + 1 + n < |s|
    ensures s == s[..colon] + [s[colon]] + s[colon + 1..][..n] + [s[colon + 1..][n]] + s[colon + 1..][n + 1..]
  {
  }

  ghost predicate ReadsAs(s: seq<byte>, data: string, rest: seq<byte>) {
    exists len, terminator :: SpellsLength(len, data) && s == Framed(len, data, terminator) + rest
  }

  /** What is accepted: exactly the framings of the UTF-8 encoding, whatever byte stands for the comma. */
  lemma AcceptedIff(s: seq<byte>, data: string, rest: seq<byte>)
    ensures ReadOne(s) == Payload(data, rest) <==> ReadsAs(s, data, rest)
  {
    if ReadOne(s) == Payload(data, rest) {
      var len, terminator := ReadTakesApart(s);
    }
    if ReadsAs(s, data, rest) {
      var len, terminator :| SpellsLength(len, data) && s == Framed(len, data, terminator) + rest;
      ReadFramed(len, data, terminator, rest);
    }
  }

  /** A framing that is cut short is reported as the end of the stream. */
  lemma CutShort(len: seq<byte>, data: string, terminator: byte, s: seq<byte>)
    requires SpellsLength(len, data) && s < Framed(len, data, terminator)
    ensures ReadOne(s) == Incomplete
  {
    var whole := Framed(len, data, terminator);
    var colon := UpToColon(s);
    if |s| <= |len| {
      assert s == len[..|s|];
      assert forall k :: 0 <= k < |s| ==> s[k] in len;
    } else {
      var t := s[|len| + 1..];
      assert whole[|len|] == COLON && whole[..|len|] == len;
      assert s[..|len|] == whole[..|len|] && s[|len|] == whole[|len|];
      assert s == len + [COLON] + t;
      ColonAfter(len, t);
    }
  }

  /** A length that is no number or negative raises, and so does a payload that is not UTF-8. */
  lemma BadIff(len: seq<byte>, body: seq<byte>)
    requires COLON !in len
    ensures ReadOne(len + [COLON] + body) == Bad <==>
            || ParseInt(len) == None || ParseInt(len).value < 0
            || (ParseInt(len).value < |body| && Decode(body[..ParseInt(len).value]) == None)
  {
    ColonAfter(len, body);
  }

  /** One written netstring is read back and the bytes after it are left. */
  lemma ReadWritten(data: string, tail: seq<byte>)
    ensures ReadOne(Write(data) + tail) == Payload(data, tail)
  {
    var len := Decimal(|Encode(data)|);
    ParsePrinted(|Encode(data)|);
    assert forall b :: b in len ==> IsDigit(b);
    ReadFramed(len, data, COMMA, tail);
  }

  lemma Regroup<T>(a: seq<T>, b: seq<T>, c: seq<T>)
    ensures (a + b) + c == a + (b + c)
  {
  }

  lemma WriteMore(payloads: seq<string>, tail: seq<byte>)
    requires payloads != []
    ensures WriteAll(payloads) + tail == Write(payloads[0]) + (WriteAll(payloads[1..]) + tail)
  {
    Regroup(Write(payloads[0]), WriteAll(payloads[1..]), tail);
  }

  lemma FirstAndRest(payloads: seq<string>, more: seq<string>)
    requires payloads != []
    ensures [payloads[0]] + (payloads[1..] + more) == payloads + more
  {
  }

  /** Reading as many payloads as were written gives them back in order and leaves the following bytes untouched. */
  lemma {:induction false} ReadsBack(payloads: seq<string>, tail: seq<byte>)
    ensures ReadAll(WriteAll(payloads) + tail) == (payloads + ReadAll(tail).0, ReadAll(tail).1)
  {
    if payloads == [] {
      assert WriteAll(payloads) + tail == tail;
      assert payloads + ReadAll(tail).0 == ReadAll(tail).0;
    } else {
      ReadsBack(payloads[1..], tail);
      ReadsFirst(payloads, tail);
      FirstAndRest(payloads, ReadAll(tail).0);
    }
  }

  lemma ReadsFirst(payloads: seq<string>, tail: seq<byte>)
    requires payloads != []
    ensures var more := ReadAll(WriteAll(payloads[1..]) + tail);
            ReadAll(WriteAll(payloads) + tail) == ([payloads[0]] + more.0, more.1)
  {
    var more := WriteAll(payloads[1..]) + tail;
    WriteMore(payloads, tail);
    ReadWritten(payloads[0], more);
    ReadMore(WriteAll(payloads) + tail, payloads[0], more);
  }

  lemma ReadMore(s: seq<byte>, data: string, rest: seq<byte>)
    requires ReadOne(s) == Payload(data, rest)
    ensures ReadAll(s) == ([data] + ReadAll(rest).0, ReadAll(rest).1)
  {
  }

  /** No encoding is a prefix of another, so a stream has at most one reading. */
  lemma PrefixFree(a: string, b: string)
    requires Write(a) <= Write(b)
    ensures a == b
  {
    var tail := AfterPrefix(Write(a), Write(b));
    ReadWritten(a, tail);
    ReadWritten(b, []);
  }

  lemma AfterPrefix(prefix: seq<byte>, s: seq<byte>) returns (tail: seq<byte>)
    requires prefix <= s
    ensures prefix + tail == s == s + []
  {
    tail := s[|prefix|..];
  }

  // ---- requests and replies ----

  /** The database lookup and the interpreter's `repr`. */
  datatype Backend = Backend(lookup: string -> Option<string>, repr: string -> string)

  /** `data.partition(" ")`, without the separator. */
  function Partition(data: string): (string, string) {
    if ' ' !in data then (data, "") else (data[..IndexOf(data, ' ')], data[IndexOf(data, ' ') + 1..])
  }

  function Reply(b: Backend, data: string): string {
    var (name, key) := Partition(data);
    if name != "relay_domains" then "PERM unknown map " + b.repr(name)
    else
      var found := b.lookup(key);
      if found.Some? && found.value != "" then "OK " + found.value else "NOTFOUND "
  }

  /** A request is the name of a map, a blank, and a key that may hold blanks; without a blank the key is empty. */
  lemma RequestIsSplit(name: string, key: string)
    requires ' ' !in name
    ensures Partition(name + " " + key) == (name, key) && Partition(name) == (name, "")
  {
    assert name + " " + key == name + [' '] + key && (name + " " + key)[|name|] == ' ';
    FirstAfterPrefix(name, ' ', key);
  }

  /** A request for a relay domain is answered OK with the value looked up, or NOTFOUND when there is none or it is
      empty. */
  lemma RelayDomainReply(b: Backend, key: string)
    ensures var reply := Reply(b, "relay_domains" + " " + key);
            match b.lookup(key)
            case None => reply == "NOTFOUND "
            case Some(value) => reply == if value == "" then "NOTFOUND " else "OK " + value
  {
    RequestIsSplit("relay_domains", key);
  }

  /** A request for any other map is refused. */
  lemma UnknownMapReply(b: Backend, name: string, key: string)
    requires ' ' !in name && name != "relay_domains"
    ensures Reply(b, name + " " + key) == Reply(b, name) == "PERM unknown map " + b.repr(name)
  {
    RequestIsSplit(name, key);
  }

  lemma OtherHeads(r: string)
    ensures !("OK " <= "NOTFOUND ") && !("OK " <= "PERM unknown map " + r)
  {
    assert "OK "[0] != "NOTFOUND "[0] && "OK "[0] != ("PERM unknown map " + r)[0];
  }

  /** A reply starts with OK exactly for a relay domain that is found. */
  lemma OkIff(b: Backend, name: string, key: string)
    requires ' ' !in name
    ensures "OK " <= Reply(b, name + " " + key) <==>
            name == "relay_domains" && b.lookup(key).Some? && b.lookup(key).value != ""
  {
    OtherHeads(b.repr(name));
    if name == "relay_domains" {
      RelayDomainReply(b, key);
    } else {
      UnknownMapReply(b, name, key);
    }
  }

  function Replies(b: Backend, requests: seq<string>): seq<string> {
    seq(|requests|, i requires 0 <= i < |requests| => Reply(b, requests[i]))
  }

  /** The bytes sent for the bytes received. */
  function Served(b: Backend, input: seq<byte>): seq<byte>
    decreases |input|
  {
    var r := ReadOne(input);
    if !r.Payload? then [] else Write(Reply(b, r.data)) + Served(b, r.rest)
  }

  lemma {:induction false} ServedIsReplies(b: Backend, input: seq<byte>)
    ensures Served(b, input) == WriteAll(Replies(b, ReadAll(input).0))
    decreases |input|
  {
    var r := ReadOne(input);
    if r.Payload? {
      ServedIsReplies(b, r.rest);
      ReadMore(input, r.data, r.rest);
      RepliesMore(b, r.data, ReadAll(r.rest).0);
    }
  }

  lemma RepliesMore(b: Backend, first: string, more: seq<string>)
    ensures WriteAll(Replies(b, [first] + more)) == Write(Reply(b, first)) + WriteAll(Replies(b, more))
  {
    var all := Replies(b, [first] + more);
    assert all[0] == Reply(b, first) && all[1..] == Replies(b, more);
  }

  /** Whatever is received, what is sent decodes, completely and without error, to one reply per request read, in
      order. */
  lemma OneReplyPerRequest(b: Backend, input: seq<byte>)
    ensures ReadAll(Served(b, input)) == (Replies(b, ReadAll(input).0), false)
  {
    ServedIsReplies(b, input);
    var replies := Replies(b, ReadAll(input).0);
    ReadsBack(replies, []);
    assert WriteAll(replies) + [] == WriteAll(replies);
    assert UpToColon([]) == 0;
    assert ReadAll([]) == ([], false);
    assert replies + [] == replies;
  }

  /** A conversation: requests written by a client get exactly their replies. */
  lemma Conversation(b: Backend, requests: seq<string>)
    ensures ReadAll(Served(b, WriteAll(requests))) == (Replies(b, requests), false)
  {
    OneReplyPerRequest(b, WriteAll(requests));
    ReadsBack(requests, []);
    assert WriteAll(requests) + [] == WriteAll(requests);
    assert ReadAll([]) == ([], false);
    assert requests + [] == requests;
  }
}

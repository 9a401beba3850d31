/** UTF-8, as `str.encode` and strict `bytes.decode` do it. */
module Utf8 {
  import opened Text

  type byte = b: int | 0 <= b < 256

  function EncodeChar(c: char): (r: seq<byte>)
    ensures 1 <= |r| <= 4
  {
    var v := c as int;
    if v < 0x80 then [v]
    else if v < 0x800 then [0xC0 + v / 64, 0x80 + v % 64]
    else if v < 0x1_0000 then [0xE0 + v / 64 / 64, 0x80 + v / 64 % 64, 0x80 + v % 64]
    else [0xF0 + v / 64 / 64 / 64, 0x80 + v / 64 / 64 % 64, 0x80 + v / 64 % 64, 0x80 + v % 64]
  }

  function Encode(s: string): seq<byte> {
    if s == "" then [] else EncodeChar(s[0]) + Encode(s[1..])
  }

  /** The bytes at the front that the first byte announces: 1 to 4, or 0 when it cannot start a character. */
  function Announced(b: byte): nat {
    if b < 0x80 then 1
    else if 0xC0 <= b < 0xE0 then 2
    else if 0xE0 <= b < 0xF0 then 3
    else if 0xF0 <= b < 0xF8 then 4
    else 0
  }

  predicate IsContinuation(b: byte) {
    0x80 <= b < 0xC0
  }

  /** What a continuation byte adds, six bits, to the number spelled so far. */
  function Shifted(high: int, b: byte): int {
    var low: int := b;
    high * 64 + (low - 0x80)
  }

  function Lead(b: byte, base: int): int {
    var lead: int := b;
    lead - base
  }

  /** The number the bytes of one character spell. */
  function Spelled(s: seq<byte>): int
    requires 1 <= |s| <= 4
  {
    if |s| == 1 then s[0]
    else if |s| == 2 then Shifted(Lead(s[0], 0xC0), s[1])
    else if |s| == 3 then Shifted(Shifted(Lead(s[0], 0xE0), s[1]), s[2])
    else Shifted(Shifted(Shifted(Lead(s[0], 0xF0), s[1]), s[2]), s[3])
  }

  /** Neither overlong, nor a surrogate, nor beyond the last code point. */
  predicate IsProper(length: nat, v: int) {
    match length
    case 1 => true
    case 2 => 0x80 <= v
    case 3 => 0x800 <= v && !(0xD800 <= v < 0xE000)
    case _ => 0x1_0000 <= v < 0x11_0000
  }

  /** The first character and the number of its bytes. */
  function DecodeFirst(s: seq<byte>): (r: Option<(char, nat)>)
    requires s != []
    ensures r.Some? ==> 1 <= r.value.1 <= |s|
  {
    var n := Announced(s[0]);
    if n == 0 || n > |s| || !(forall i :: 1 <= i < n ==> IsContinuation(s[i])) then None
    else
      var v := Spelled(s[..n]);
      if IsProper(n, v) then Some((v as char, n)) else None
  }

  function Decode(s: seq<byte>): Option<string>
    decreases |s|
  {
    if s == [] then Some("")
    else
      var first := DecodeFirst(s);
      if first == None then None
      else
        var rest := Decode(s[first.value.1..]);
        if rest == None then None else Some([first.value.0] + rest.value)
  }

  lemma SpelledBack(c: char)
    ensures var r := EncodeChar(c);
            Announced(r[0]) == |r| && Spelled(r) == c as int && IsProper(|r|, c as int)
    ensures forall i :: 1 <= i < |EncodeChar(c)| ==> IsContinuation(EncodeChar(c)[i])
  {
  }

  /** The form of an encoded character, as section 3 of RFC 3629 tabulates it: the lead byte and the six bits each
      continuation byte carries. */
  lemma EncodedForm(c: char)
    ensures var r, v := EncodeChar(c), c as int;
            && (v < 0x80 ==> r == [v])
            && (0x80 <= v < 0x800 ==>
                  |r| == 2 && 0xC2 <= r[0] < 0xE0 && v == (r[0] as int - 0xC0) * 0x40 + (r[1] as int - 0x80))
            && (0x800 <= v < 0x1_0000 ==>
                  |r| == 3 && 0xE0 <= r[0] < 0xF0 &&
                  v == (r[0] as int - 0xE0) * 0x1000 + (r[1] as int - 0x80) * 0x40 + (r[2] as int - 0x80))
            && (0x1_0000 <= v ==>
                  |r| == 4 && 0xF0 <= r[0] < 0xF5 &&
                  v == (r[0] as int - 0xF0) * 0x4_0000 + (r[1] as int - 0x80) * 0x1000 +
                       (r[2] as int - 0x80) * 0x40 + (r[3] as int - 0x80))
            && forall i :: 1 <= i < |r| ==> 0x80 <= r[i] < 0xC0
  {
  }

  lemma DecodeEncodedFirst(c: char, tail: seq<byte>)
    ensures DecodeFirst(EncodeChar(c) + tail) == Some((c, |EncodeChar(c)|))
  {
    SpelledBack(c);
    var r := EncodeChar(c);
    assert (r + tail)[..|r|] == r;
    assert forall i :: 0 <= i < |r| ==> (r + tail)[i] == r[i];
  }

  /** Decoding undoes encoding. */
  lemma {:induction false} DecodeEncode(s: string)
    ensures Decode(Encode(s)) == Some(s)
  {
    if s != "" {
      var first, rest := EncodeChar(s[0]), Encode(s[1..]);
      DecodeEncode(s[1..]);
      DecodeEncodedFirst(s[0], rest);
      assert (first + rest)[|first|..] == rest;
      assert s == [s[0]] + s[1..] && Encode(s) == first + rest;
    }
  }

  lemma Unshift(high: int, b: byte)
    requires IsContinuation(b)
    ensures Shifted(high, b) / 64 == high && 0x80 + Shifted(high, b) % 64 == b
  {
  }

  lemma EncodeSpelled(r: seq<byte>)
    requires 1 <= |r| <= 4 && Announced(r[0]) == |r| && forall i :: 1 <= i < |r| ==> IsContinuation(r[i])
    requires IsProper(|r|, Spelled(r))
    ensures EncodeChar(Spelled(r) as char) == r
  {
    if |r| == 2 {
      Unshift(Lead(r[0], 0xC0), r[1]);
    } else if |r| == 3 {
      var high := Shifted(Lead(r[0], 0xE0), r[1]);
      Unshift(Lead(r[0], 0xE0), r[1]);
      Unshift(high, r[2]);
    } else if |r| == 4 {
      var high := Shifted(Lead(r[0], 0xF0), r[1]);
      Unshift(Lead(r[0], 0xF0), r[1]);
      Unshift(high, r[2]);
      Unshift(Shifted(high, r[2]), r[3]);
    }
  }

  lemma EncodeDecodedFirst(s: seq<byte>)
    requires s != [] && DecodeFirst(s).Some?
    ensures EncodeChar(DecodeFirst(s).value.0) == s[..DecodeFirst(s).value.1]
  {
    EncodeSpelled(s[..DecodeFirst(s).value.1]);
  }

  /** Decoding is strict: the only bytes that decode to a text are its own encoding. */
  lemma {:induction false} EncodeDecode(s: seq<byte>)
    requires Decode(s).Some?
    ensures Encode(Decode(s).value) == s
    decreases |s|
  {
    if s != [] {
      var c, n, rest := DecodeMore(s);
      EncodeDecode(s[n..]);
      EncodeMore(c, rest);
    }
  }

  lemma DecodeMore(s: seq<byte>) returns (c: char, n: nat, rest: string)
    requires s != [] && Decode(s).Some?
    ensures 1 <= n <= |s| && Decode(s[n..]) == Some(rest) && Decode(s).value == [c] + rest
    ensures s == EncodeChar(c) + s[n..]
  {
    c, n := DecodeFirst(s).value.0, DecodeFirst(s).value.1;
    rest := Decode(s[n..]).value;
    EncodeDecodedFirst(s);
    assert s[..n] + s[n..] == s;
  }

  lemma EncodeMore(c: char, rest: string)
    ensures Encode([c] + rest) == EncodeChar(c) + Encode(rest)
  {
    assert ([c] + rest)[1..] == rest;
  }
}

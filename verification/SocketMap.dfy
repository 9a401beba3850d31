/** The socketmap server's stream reader, writer and request loop, proved against the netstring functions. */
module SocketMap {
  import opened Text
  import opened Utf8
  import opened Netstrings

  /** A received stream: what has arrived in all, and how much of it is consumed. */
  class StreamReader {
    const received: seq<byte>
    var position: nat

    ghost predicate Valid() reads this {
      position <= |received|
    }

    ghost function Left(): seq<byte>
      reads this
      requires Valid()
    {
      received[position..]
    }

    constructor (received: seq<byte>)
      ensures Valid() && Left() == received
    {
      this.received, position := received, 0;
    }

    /** `readexactly`: at the end of the stream the partial data is consumed and None stands for the exception. */
    method ReadExactly(n: nat) returns (r: Option<seq<byte>>)
      requires Valid()
      modifies this
      ensures Valid()
      ensures n <= |old(Left())| ==> r == Some(old(Left())[..n]) && Left() == old(Left())[n..]
      ensures n > |old(Left())| ==> r == None && Left() == []
    {
      if |received| - position < n {
        position := |received|;
        return None;
      }
      r := Some(received[position..position + n]);
      assert received[position..][..n] == received[position..position + n];
      assert received[position..][n..] == received[position + n..];
      position := position + n;
    }
  }

  class StreamWriter {
    var sent: seq<byte>

    constructor ()
      ensures sent == []
    {
      sent := [];
    }

    method WriteNetstring(data: string)
      modifies this
      ensures sent == old(sent) + Write(data)
    {
      var encoded := Encode(data);
      sent := sent + (Decimal(|encoded|) + [COLON] + encoded + [COMMA]);
    }
  }

  datatype Outcome = Data(data: string) | StreamEnded | Raised

  /** The length byte by byte up to the colon, the payload, and one more byte whatever it is. */
  method ReadNetstring(reader: StreamReader) returns (r: Outcome)
    requires reader.Valid()
    modifies reader
    ensures reader.Valid()
    ensures var one := ReadOne(old(reader.Left()));
            && (one.Payload? ==> r == Data(one.data) && reader.Left() == one.rest)
            && (one.Incomplete? ==> r == StreamEnded)
            && (one.Bad? ==> r == Raised)
  {
    ghost var input := reader.Left();
    var lengthBytes: seq<byte> := [];
    while true
      invariant reader.Valid() && COLON !in lengthBytes
      invariant input == lengthBytes + reader.Left()
      decreases |reader.Left()|
    {
      ghost var left := reader.Left();
      var b := reader.ReadExactly(1);
      if b == None {
        NoColon(input, lengthBytes);
        return StreamEnded;
      }
      assert left == b.value + reader.Left();
      if b.value == [COLON] {
        break;
      }
      lengthBytes := lengthBytes + b.value;
    }
    ghost var body := reader.Left();
    assert input == lengthBytes + [COLON] + body;
    ColonAfter(lengthBytes, body);
    var length := ParseInt(lengthBytes);
    if length == None || length.value < 0 {
      return Raised;
    }
    var payload := reader.ReadExactly(length.value);
    if payload == None {
      return StreamEnded;
    }
    var terminator := reader.ReadExactly(1);
    if terminator == None {
      return StreamEnded;
    }
    var text := Decode(payload.value);
    if text == None {
      return Raised;
    }
    r := Data(text.value);
  }

  lemma NoColon(s: seq<byte>, all: seq<byte>)
    requires COLON !in all && s == all + []
    ensures ReadOne(s) == Incomplete
  {
    if UpToColon(s) < |s| {
      assert s[UpToColon(s)] in all;
    }
  }

  /** Serves one connection until the stream ends or reading raises. */
  method HandleClient(b: Backend, reader: StreamReader, writer: StreamWriter) returns (raised: bool)
    requires reader.Valid()
    modifies reader, writer
    ensures reader.Valid() && raised == ReadAll(old(reader.Left())).1
    ensures writer.sent == old(writer.sent) + Served(b, old(reader.Left()))
  {
    ghost var input := reader.Left();
    assert writer.sent + Served(b, input) == old(writer.sent) + Served(b, input);
    while true
      invariant reader.Valid()
      invariant writer.sent + Served(b, reader.Left()) == old(writer.sent) + Served(b, input)
      invariant ReadAll(reader.Left()).1 == ReadAll(input).1
      decreases |reader.Left()|
    {
      ghost var left, sent := reader.Left(), writer.sent;
      var r := ReadNetstring(reader);
      if r.StreamEnded? {
        return false;
      }
      if r.Raised? {
        return true;
      }
      var (name, key) := Partition(r.data);
      if name == "relay_domains" {
        var found := b.lookup(key);
        if found.Some? && found.value != "" {
          writer.WriteNetstring("OK " + found.value);
        } else {
          writer.WriteNetstring("NOTFOUND ");
        }
      } else {
        writer.WriteNetstring("PERM unknown map " + b.repr(name));
      }
      Regroup(sent, Write(Reply(b, r.data)), Served(b, reader.Left()));
    }
  }
}

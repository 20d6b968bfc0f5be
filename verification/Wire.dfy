/** Buffered reading and writing of octets, as the wire codecs use them. */
module Wire {
  import opened Bytes
  import opened Collections

  datatype Error = EndOfInput | BadVersion | BadLength | BadMagic | BadTag | BadAddress | BadMessage

  /** What a reader yields, or why it failed. */
  type Read<T> = Result<T, Error>

  /** The next n octets and what follows them. */
  function Take(input: seq<byte>, n: nat): Read<(seq<byte>, seq<byte>)> {
    if |input| < n then Err(EndOfInput) else Ok((input[..n], input[n..]))
  }

  function TakeU8(input: seq<byte>): Read<(byte, seq<byte>)> {
    if |input| < 1 then Err(EndOfInput) else Ok((input[0], input[1..]))
  }

  function TakeU16(input: seq<byte>): Read<(nat, seq<byte>)> {
    if |input| < 2 then Err(EndOfInput) else Ok((ReadU16(input[..2]), input[2..]))
  }

  function TakeU32(input: seq<byte>): Read<(nat, seq<byte>)> {
    if |input| < 4 then Err(EndOfInput) else Ok((ReadU32(input[..4]), input[4..]))
  }

  lemma TakesFront(x: seq<byte>, rest: seq<byte>)
    ensures Take(x + rest, |x|) == Ok((x, rest))
  {}

  lemma TakesU16(v: nat, rest: seq<byte>)
    ensures TakeU16(U16(v) + rest) == Ok((v % U16_LIMIT, rest))
  {
    U16ReadsBack(v);
    assert (U16(v) + rest)[..2] == U16(v);
  }

  lemma TakesU32(v: nat, rest: seq<byte>)
    ensures TakeU32(U32(v) + rest) == Ok((v % U32_LIMIT, rest))
  {
    U32ReadsBack(v);
    assert (U32(v) + rest)[..4] == U32(v);
  }

  function TakeSized(input: seq<byte>): Read<(seq<byte>, seq<byte>)> {
    var (n, rest) :- TakeU16(input);
    Take(rest, n)
  }

  lemma TakesSized(x: seq<byte>, rest: seq<byte>)
    requires |x| < U16_LIMIT
    ensures TakeU16(Sized(x) + rest) == Ok((|x|, x + rest)) && Take(x + rest, |x|) == Ok((x, rest))
    ensures TakeSized(Sized(x) + rest) == Ok((x, rest))
  {
    Assoc(U16(|x|), x, rest);
    TakesU16(|x|, x + rest);
    TakesFront(x, rest);
  }

  lemma TookSized(x: seq<byte>)
    requires TakeSized(x).Ok?
    ensures var (s, rest) := TakeSized(x).value; x == Sized(s) + rest && |s| < U16_LIMIT
  {
    var (n, r) := TakeU16(x).value;
    U16Printed(x[..2]);
    assert x == U16(n) + r && r == r[..n] + r[n..];
    Assoc(U16(n), r[..n], r[n..]);
  }

  class ByteReader {
    /** What has not been consumed. */
    var rest: seq<byte>

    constructor (data: seq<byte>)
      ensures rest == data
    {
      rest := data;
    }

    /** Running out consumes what there is. */
    method ReadFull(n: nat) returns (r: Read<seq<byte>>)
      modifies this
      ensures Take(old(rest), n) == if r.Ok? then Ok((r.value, rest)) else Err(r.error)
      ensures r.Err? ==> rest == []
    {
      if n > |rest| {
        rest := [];
        return Err(EndOfInput);
      }
      r := Ok(rest[..n]);
      rest := rest[n..];
    }

    method ReadAll() returns (all: seq<byte>)
      modifies this
      ensures all == old(rest) && rest == []
    {
      all, rest := rest, [];
    }

    method ReadByte() returns (r: Read<byte>)
      modifies this
      ensures TakeU8(old(rest)) == if r.Ok? then Ok((r.value, rest)) else Err(r.error)
    {
      var b := ReadFull(1);
      match b
      case Err(e) => return Err(e);
      case Ok(v) => return Ok(v[0]);
    }

    method ReadShort() returns (r: Read<nat>)
      modifies this
      ensures TakeU16(old(rest)) == if r.Ok? then Ok((r.value, rest)) else Err(r.error)
    {
      var b := ReadFull(2);
      match b
      case Err(e) => return Err(e);
      case Ok(v) => return Ok(ReadU16(v));
    }

    method ReadWord() returns (r: Read<nat>)
      modifies this
      ensures TakeU32(old(rest)) == if r.Ok? then Ok((r.value, rest)) else Err(r.error)
    {
      var b := ReadFull(4);
      match b
      case Err(e) => return Err(e);
      case Ok(v) => return Ok(ReadU32(v));
    }
  }

  class ByteWriter {
    var out: seq<byte>

    constructor ()
      ensures out == []
    {
      out := [];
    }

    method Put(bs: seq<byte>)
      modifies this
      ensures out == old(out) + bs
    {
      out := out + bs;
    }
  }
}

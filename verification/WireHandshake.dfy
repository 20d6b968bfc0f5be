/** The client's opening handshake: junk, a magic, then role, token and options. */
module WireHandshake {
  import opened Bytes
  import opened Collections
  import opened Wire

  const MAGIC: seq<byte> := [86, 79, 76, 84, 1]
  const VERSION: byte := 1
  const ROLE_UDP: byte := 1
  const MAX_TOKEN := 4096
  const MAX_OPTS := 2048

  ghost predicate OccursAt(s: seq<byte>, i: nat) { i + 5 <= |s| && s[i..i + 5] == MAGIC }

  ghost predicate FreeOfMagic(s: seq<byte>) { forall i: nat :: !OccursAt(s, i) }

  /** What follows the first magic, if there is one. */
  function AfterMagic(s: seq<byte>): Option<seq<byte>> {
    if |s| < 5 then None
    else if s[..5] == MAGIC then Some(s[5..])
    else AfterMagic(s[1..])
  }

  lemma {:induction false} AfterMagicIsFirst(s: seq<byte>)
    ensures AfterMagic(s).None? <==> FreeOfMagic(s)
    ensures AfterMagic(s).Some? ==>
      exists i: nat :: OccursAt(s, i) && AfterMagic(s).value == s[i + 5..] && forall j: nat :: j < i ==> !OccursAt(s, j)
  {
    if |s| >= 5 {
      if s[..5] == MAGIC {
        assert s[0..5] == s[..5];
        assert OccursAt(s, 0);
      } else {
        AfterMagicIsFirst(s[1..]);
        assert !OccursAt(s, 0) by { assert s[0..5] == s[..5]; }
        assert forall i: nat :: i > 0 ==> (OccursAt(s, i) <==> OccursAt(s[1..], i - 1)) by { ShiftOccurrences(s); }
        if AfterMagic(s).Some? {
          var i: nat :| OccursAt(s[1..], i) && AfterMagic(s).value == s[1..][i + 5..] && forall j: nat :: j < i ==> !OccursAt(s[1..], j);
          assert OccursAt(s, i + 1) && s[1..][i + 5..] == s[i + 1 + 5..];
        } else {
          forall i: nat ensures !OccursAt(s, i) { if i > 0 { assert !OccursAt(s[1..], i - 1); } }
        }
      }
    }
  }

  lemma ShiftOccurrences(s: seq<byte>)
    requires |s| > 0
    ensures forall i: nat :: i > 0 ==> (OccursAt(s, i) <==> OccursAt(s[1..], i - 1))
  {
    forall i: nat | i > 0 ensures OccursAt(s, i) <==> OccursAt(s[1..], i - 1) {
      if i + 5 <= |s| { assert s[i..i + 5] == s[1..][i - 1..i + 4]; }
    }
  }

  /** The sliding-window loop: stops just behind the first magic, or at the end of the input. */
  method SkipUntilMagic(r: ByteReader) returns (res: Read<()>)
    modifies r
    ensures match AfterMagic(old(r.rest)) case Some(rest) => res.Ok? && r.rest == rest case None => res == Err(EndOfInput)
  {
    ghost var s := r.rest;
    var buf: seq<byte> := [0, 0, 0, 0, 0];
    var n := 0;
    while true
      invariant n <= |s| && r.rest == s[n..] && |buf| == 5
      invariant forall j :: 0 <= j < 5 && j >= 5 - n ==> buf[j] == s[n - 5 + j]
      invariant forall i: nat :: i + 5 <= n ==> !OccursAt(s, i)
      decreases |s| - n
    {
      var b := r.ReadByte();
      match b
      case Err(e) =>
        forall i: nat ensures !OccursAt(s, i) { if i + 5 <= |s| { assert i + 5 <= n; } }
        AfterMagicIsFirst(s);
        return Err(e);
      case Ok(v) =>
        assert v == s[n..][0] == s[n];
        buf, n := [buf[1], buf[2], buf[3], buf[4], v], n + 1;
        if n >= 5 {
          assert buf == s[n - 5..n];
          if buf == MAGIC {
            FirstIs(s, n - 5);
            return Ok(());
          }
        }
    }
  }

  lemma {:induction false} FirstIs(s: seq<byte>, i: nat)
    requires OccursAt(s, i) && forall j: nat :: j < i ==> !OccursAt(s, j)
    ensures AfterMagic(s) == Some(s[i + 5..])
  {
    if i == 0 {
      assert s[0..5] == s[..5];
    } else {
      assert !OccursAt(s, 0);
      assert s[0..5] == s[..5];
      ShiftOccurrences(s);
      assert OccursAt(s[1..], i - 1);
      forall j: nat | j < i - 1 ensures !OccursAt(s[1..], j) { assert !OccursAt(s, j + 1); }
      FirstIs(s[1..], i - 1);
      assert s[1..][i - 1 + 5..] == s[i + 5..];
    }
  }

  /** The magic has no border, so a magic written after `junk` is the first one found exactly when `junk` holds none. */
  lemma MagicFoundBehindJunk(junk: seq<byte>, rest: seq<byte>)
    ensures AfterMagic(junk + MAGIC + rest) == Some(rest) <==> FreeOfMagic(junk)
  {
    var s := junk + MAGIC + rest;
    assert s[|junk|..|junk| + 5] == MAGIC;
    assert OccursAt(s, |junk|);
    assert s[|junk| + 5..] == rest;
    if FreeOfMagic(junk) {
      forall i: nat | i < |junk| ensures !OccursAt(s, i) {
        if i + 5 <= |junk| {
          assert s[i..i + 5] == junk[i..i + 5];
          assert !OccursAt(junk, i);
        } else {
          assert s[i..i + 5][|junk| - i] == s[|junk|] == MAGIC[0];
        }
      }
      FirstIs(s, |junk|);
    } else {
      var i: nat :| OccursAt(junk, i);
      assert s[i..i + 5] == junk[i..i + 5];
      assert OccursAt(s, i);
      AfterMagicIsFirst(s);
      var k: nat :| OccursAt(s, k) && AfterMagic(s).value == s[k + 5..] && forall j: nat :: j < k ==> !OccursAt(s, j);
      assert k <= i;
      assert |s[k + 5..]| > |rest|;
    }
  }

  datatype Hello = Hello(role: byte, channel: byte, token: seq<byte>)

  /** Options beyond 2048 octets are not sent. */
  function SentOptions(opts: seq<byte>): seq<byte> { if |opts| <= MAX_OPTS then opts else [] }

  function Body(h: Hello, opts: seq<byte>): seq<byte> {
    [VERSION] + ([h.role] + (Sized(h.token) + ((if h.role == ROLE_UDP then [h.channel] else []) + Sized(SentOptions(opts)))))
  }

  /** Writes the magic in pieces of the given lengths; however it is split, the whole magic comes out. */
  method WriteMagic(w: ByteWriter, splits: seq<nat>)
    modifies w
    ensures w.out == old(w.out) + MAGIC
  {
    var off: nat, i: nat := 0, 0;
    while i < |splits|
      invariant off <= 5 && w.out == old(w.out) + MAGIC[..off]
    {
      var n := splits[i];
      if off + n > 5 {
        break;
      }
      assert MAGIC[..off + n] == MAGIC[..off] + MAGIC[off..off + n];
      w.Put(MAGIC[off..off + n]);
      off, i := off + n, i + 1;
    }
    assert MAGIC == MAGIC[..off] + MAGIC[off..];
    w.Put(MAGIC[off..]);
  }

  /** Writing one piece after another gives the nested concatenation. */
  lemma InOrder(base: seq<byte>, v: seq<byte>, role: seq<byte>, tokLen: seq<byte>, token: seq<byte>, ch: seq<byte>, optsLen: seq<byte>, opts: seq<byte>)
    ensures base + v + role + tokLen + token + ch + optsLen + opts
      == base + (v + (role + ((tokLen + token) + (ch + (optsLen + opts)))))
  {
    var tail := ch + (optsLen + opts);
    Assoc(base + v + role + tokLen + token + ch, optsLen, opts);
    Assoc(base + v + role + tokLen + token, ch, optsLen + opts);
    Assoc(base + v + role, tokLen, token);
    Assoc(base + v + role, tokLen + token, tail);
    Assoc(base + v, role, (tokLen + token) + tail);
    Assoc(base, v, role + ((tokLen + token) + tail));
  }

  /** `prefix` stands for the random octets drawn before the magic. */
  method WriteHandshake(w: ByteWriter, h: Hello, prefix: seq<byte>, splits: seq<nat>, opts: seq<byte>) returns (ok: bool)
    modifies w
    ensures ok <==> |h.token| <= MAX_TOKEN
    ensures ok ==> w.out == old(w.out) + prefix + MAGIC + Body(h, opts)
  {
    w.Put(prefix);
    WriteMagic(w, splits);
    ok := WriteBody(w, h, opts);
  }

  method WriteBody(w: ByteWriter, h: Hello, opts: seq<byte>) returns (ok: bool)
    modifies w
    ensures ok <==> |h.token| <= MAX_TOKEN
    ensures ok ==> w.out == old(w.out) + Body(h, opts)
  {
    w.Put([VERSION]);
    w.Put([h.role]);
    if |h.token| > MAX_TOKEN {
      return false;
    }
    w.Put(U16(|h.token|));
    w.Put(h.token);
    w.Put(if h.role == ROLE_UDP then [h.channel] else []);
    var sent := if |opts| > 0 && |opts| <= MAX_OPTS then opts else [];
    w.Put(U16(|sent|));
    w.Put(sent);
    InOrder(old(w.out), [VERSION], [h.role], U16(|h.token|), h.token,
      if h.role == ROLE_UDP then [h.channel] else [], U16(|sent|), sent);
    return true;
  }

  function ParseBody(input: seq<byte>): Read<(Hello, seq<byte>, seq<byte>)> {
    var (ver, r1) :- TakeU8(input);
    var _ :- Check(ver == VERSION, BadVersion);
    var (role, r2) :- TakeU8(r1);
    var (n, r3) :- TakeU16(r2);
    var _ :- Check(n <= MAX_TOKEN, BadLength);
    var (token, r4) :- Take(r3, n);
    var (channel, r5) :- if role == ROLE_UDP then TakeU8(r4) else Ok((0, r4));
    var (m, r6) :- TakeU16(r5);
    var _ :- Check(m <= MAX_OPTS, BadLength);
    var (opts, r7) :- Take(r6, m);
    Ok((Hello(role, channel, token), opts, r7))
  }

  function Parse(input: seq<byte>): Read<(Hello, seq<byte>, seq<byte>)> {
    match AfterMagic(input)
    case None => Err(EndOfInput)
    case Some(rest) => ParseBody(rest)
  }

  method ReadHandshake(r: ByteReader) returns (res: Read<(Hello, seq<byte>)>)
    modifies r
    ensures Parse(old(r.rest)) == if res.Ok? then Ok((res.value.0, res.value.1, r.rest)) else Err(res.error)
  {
    var found := SkipUntilMagic(r);
    if found.Err? { return Err(found.error); }
    var ver := r.ReadByte();
    if ver.Err? { return Err(ver.error); }
    if ver.value != VERSION { return Err(BadVersion); }
    var role := r.ReadByte();
    if role.Err? { return Err(role.error); }
    var n := r.ReadShort();
    if n.Err? { return Err(n.error); }
    if n.value > MAX_TOKEN { return Err(BadLength); }
    var token := r.ReadFull(n.value);
    if token.Err? { return Err(token.error); }
    var channel: byte := 0;
    if role.value == ROLE_UDP {
      var c := r.ReadByte();
      if c.Err? { return Err(c.error); }
      channel := c.value;
    }
    var m := r.ReadShort();
    if m.Err? { return Err(m.error); }
    if m.value > MAX_OPTS { return Err(BadLength); }
    var opts := r.ReadFull(m.value);
    if opts.Err? { return Err(opts.error); }
    return Ok((Hello(role.value, channel, token.value), opts.value));
  }

  lemma BodyRoundTrip(h: Hello, opts: seq<byte>, more: seq<byte>)
    requires |h.token| <= MAX_TOKEN
    ensures ParseBody(Body(h, opts) + more) == Ok((h.(channel := if h.role == ROLE_UDP then h.channel else 0), SentOptions(opts), more))
  {
    var ch := if h.role == ROLE_UDP then [h.channel] else [];
    var tail := Sized(SentOptions(opts)) + more;
    BodyInPieces(h, ch, Sized(SentOptions(opts)), more);
    TakesSized(h.token, ch + tail);
    TakesSized(SentOptions(opts), more);
    if h.role != ROLE_UDP { assert ch + tail == tail; }
  }

  lemma BodyInPieces(h: Hello, ch: seq<byte>, os: seq<byte>, more: seq<byte>)
    ensures var b := [VERSION] + ([h.role] + (Sized(h.token) + (ch + os))) + more;
      TakeU8(b) == Ok((VERSION, [h.role] + (Sized(h.token) + (ch + (os + more)))))
      && TakeU8([h.role] + (Sized(h.token) + (ch + (os + more)))) == Ok((h.role, Sized(h.token) + (ch + (os + more))))
  {
    Assoc([VERSION], [h.role] + (Sized(h.token) + (ch + os)), more);
    Assoc([h.role], Sized(h.token) + (ch + os), more);
    Assoc(Sized(h.token), ch + os, more);
    Assoc(ch, os, more);
  }

  /** The reader accepts nothing but printed bodies: what it consumed is what printing its result gives. */
  lemma ParsedIsPrinted(x: seq<byte>)
    requires ParseBody(x).Ok?
    ensures var (h, opts, more) := ParseBody(x).value; x == Body(h, opts) + more && |h.token| <= MAX_TOKEN && |opts| <= MAX_OPTS
  {
    var (h, opts, more) := ParseBody(x).value;
    var r2 := x[1..][1..];
    var r4 := TakeSized(r2).value.1;
    TookSized(r2);
    if h.role == ROLE_UDP {
      TookSized(r4[1..]);
      PrintedFrom(x, h, r2, [h.channel], r4, r4[1..], opts, more);
    } else {
      TookSized(r4);
      PrintedFrom(x, h, r2, [], r4, r4, opts, more);
    }
  }

  lemma PrintedFrom(x: seq<byte>, h: Hello, r2: seq<byte>, ch: seq<byte>, r4: seq<byte>, r5: seq<byte>, opts: seq<byte>, more: seq<byte>)
    requires |x| >= 2 && x[0] == VERSION && x[1] == h.role && r2 == x[1..][1..]
    requires r2 == Sized(h.token) + r4 && r4 == ch + r5 && r5 == Sized(opts) + more
    ensures x == [VERSION] + ([h.role] + (Sized(h.token) + (ch + Sized(opts)))) + more
  {
    Assoc(ch, Sized(opts), more);
    Assoc(Sized(h.token), ch + Sized(opts), more);
    Assoc([h.role], Sized(h.token) + (ch + Sized(opts)), more);
    Assoc([VERSION], [h.role] + (Sized(h.token) + (ch + Sized(opts))), more);
    assert x == [VERSION] + ([h.role] + r2);
  }

  /**
   * Junk and prefix, then a written handshake: role, channel, token and options come back and nothing else is
   * consumed, exactly when the octets before the magic do not hold the magic themselves.
   */
  lemma HandshakeRoundTrip(junk: seq<byte>, prefix: seq<byte>, h: Hello, opts: seq<byte>, more: seq<byte>)
    requires |h.token| <= MAX_TOKEN
    ensures Parse(junk + (prefix + MAGIC + Body(h, opts)) + more)
      == Ok((h.(channel := if h.role == ROLE_UDP then h.channel else 0), SentOptions(opts), more))
      <==> FreeOfMagic(junk + prefix)
  {
    var input := junk + (prefix + MAGIC + Body(h, opts)) + more;
    var lead, rest := junk + prefix, Body(h, opts) + more;
    assert input == lead + MAGIC + rest;
    MagicFoundBehindJunk(lead, rest);
    BodyRoundTrip(h, opts, more);
    if !FreeOfMagic(lead) && Parse(input).Ok? {
      FoundTooEarly(lead, rest, input);
      ParsedIsPrinted(AfterMagic(input).value);
    }
  }

  lemma FoundTooEarly(lead: seq<byte>, rest: seq<byte>, input: seq<byte>)
    requires !FreeOfMagic(lead) && input == lead + MAGIC + rest
    ensures AfterMagic(input).Some? && |AfterMagic(input).value| > |rest|
  {
    var i: nat :| OccursAt(lead, i);
    assert input[i..i + 5] == lead[i..i + 5];
    StopsEarly(input, i);
  }

  lemma StopsEarly(s: seq<byte>, i: nat)
    requires OccursAt(s, i)
    ensures AfterMagic(s).Some? && |AfterMagic(s).value| >= |s| - i - 5
  {
    AfterMagicIsFirst(s);
    var k: nat :| OccursAt(s, k) && AfterMagic(s).value == s[k + 5..] && forall j: nat :: j < k ==> !OccursAt(s, j);
    assert k <= i;
  }

  /** Options come back as given exactly when they are within 2048 octets. */
  lemma OptionsSurviveIff(h: Hello, opts: seq<byte>)
    requires |h.token| <= MAX_TOKEN
    ensures (Parse(MAGIC + Body(h, opts)).Ok? && Parse(MAGIC + Body(h, opts)).value.1 == opts) <==> |opts| <= MAX_OPTS
  {
    var input := MAGIC + Body(h, opts);
    assert input == [] + ([] + MAGIC + Body(h, opts)) + [];
    assert FreeOfMagic([] + []);
    HandshakeRoundTrip([], [], h, opts, []);
  }
}

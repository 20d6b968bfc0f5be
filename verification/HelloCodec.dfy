/** The two plaintexts of the dexote handshake and the cursor that parses them. */
module HelloCodec {
  import opened Bytes
  import opened Collections

  const VERSION: byte := 1
  const NONCE_LEN := 16

  datatype Payload = Payload(role: byte, token: seq<byte>, opts: seq<byte>)

  function BuildClient(p: Payload, nonce: seq<byte>, ts: int, pad: seq<byte>): seq<byte>
    requires IsI64(ts)
  {
    [VERSION, p.role] + (nonce + (I64(ts) + (Sized(p.token) + (Sized(p.opts) + Sized(pad)))))
  }

  function BuildServer(nonce: seq<byte>, caps: seq<byte>, pad: seq<byte>): seq<byte> {
    nonce + (Sized(caps) + Sized(pad))
  }

  /** The cursor's fields; once `err` is set every later read yields zeros. */
  datatype Cur = Cur(b: seq<byte>, off: nat, err: bool)

  function TakeByte(c: Cur): (byte, Cur) {
    if c.err || c.off >= |c.b| then (0, c.(err := true)) else (c.b[c.off], c.(off := c.off + 1))
  }

  function TakeN(c: Cur, n: nat): (r: (seq<byte>, Cur))
    ensures |r.0| == n
  {
    if c.err || c.off + n > |c.b| then (Zeros(n), c.(err := true)) else (c.b[c.off..c.off + n], c.(off := c.off + n))
  }

  function TakePrefixed(c: Cur): (seq<byte>, Cur) {
    if c.err || c.off + 2 > |c.b| then ([], c.(err := true))
    else TakeN(c.(off := c.off + 2), ReadU16(c.b[c.off..c.off + 2]))
  }

  datatype ClientHello = ClientHello(payload: Payload, nonce: seq<byte>, ts: int)
  datatype Parsed<T> = Good(value: T) | BadVersion | Short

  function ParseClient(pt: seq<byte>): Parsed<ClientHello> {
    var (ver, c1) := TakeByte(Cur(pt, 0, false));
    var (role, c2) := TakeByte(c1);
    if ver != VERSION then BadVersion
    else
      var (nonce, c3) := TakeN(c2, NONCE_LEN);
      var (ts, c4) := TakeN(c3, 8);
      var (token, c5) := TakePrefixed(c4);
      var (opts, c6) := TakePrefixed(c5);
      var (_, c7) := TakePrefixed(c6);
      if c7.err then Short else Good(ClientHello(Payload(role, token, opts), nonce, ReadI64(ts)))
  }

  function ParseServer(pt: seq<byte>): Parsed<(seq<byte>, seq<byte>)> {
    var (nonce, c1) := TakeN(Cur(pt, 0, false), NONCE_LEN);
    var (caps, c2) := TakePrefixed(c1);
    var (_, c3) := TakePrefixed(c2);
    if c3.err then Short else Good((nonce, caps))
  }

  class Cursor {
    const b: seq<byte>
    var off: nat
    var err: bool

    function View(): Cur
      reads this
    {
      Cur(b, off, err)
    }

    constructor (b: seq<byte>)
      ensures View() == Cur(b, 0, false)
    {
      this.b, off, err := b, 0, false;
    }

    method U8() returns (v: byte)
      modifies this
      ensures (v, View()) == TakeByte(old(View()))
    {
      if err || off >= |b| {
        err := true;
        return 0;
      }
      v := b[off];
      off := off + 1;
    }

    method N(n: nat) returns (v: seq<byte>)
      modifies this
      ensures (v, View()) == TakeN(old(View()), n)
    {
      if err || off + n > |b| {
        err := true;
        return Zeros(n);
      }
      v := b[off..off + n];
      off := off + n;
    }

    method LenPrefixed() returns (v: seq<byte>)
      modifies this
      ensures (v, View()) == TakePrefixed(old(View()))
    {
      if err || off + 2 > |b| {
        err := true;
        return [];
      }
      var n := ReadU16(b[off..off + 2]);
      off := off + 2;
      v := N(n);
    }
  }

  method ParseClientPlaintext(pt: seq<byte>) returns (r: Parsed<ClientHello>)
    ensures r == ParseClient(pt)
  {
    var c := new Cursor(pt);
    var ver := c.U8();
    var role := c.U8();
    if ver != VERSION {
      return BadVersion;
    }
    var nonce := c.N(NONCE_LEN);
    var ts := c.N(8);
    var token := c.LenPrefixed();
    var opts := c.LenPrefixed();
    var _ := c.LenPrefixed();
    if c.err {
      return Short;
    }
    return Good(ClientHello(Payload(role, token, opts), nonce, ReadI64(ts)));
  }

  method ParseServerPlaintext(pt: seq<byte>) returns (r: Parsed<(seq<byte>, seq<byte>)>)
    ensures r == ParseServer(pt)
  {
    var c := new Cursor(pt);
    var nonce := c.N(NONCE_LEN);
    var caps := c.LenPrefixed();
    var _ := c.LenPrefixed();
    if c.err {
      return Short;
    }
    return Good((nonce, caps));
  }

  /** The cursor stands in front of `rest`, with no error so far. */
  ghost predicate At(c: Cur, rest: seq<byte>) {
    !c.err && c.off <= |c.b| && c.b[c.off..] == rest
  }

  lemma TakesByte(c: Cur, v: byte, rest: seq<byte>)
    requires At(c, [v] + rest)
    ensures TakeByte(c).0 == v && At(TakeByte(c).1, rest)
  {
    assert c.b[c.off] == c.b[c.off..][0];
    assert c.b[c.off + 1..] == c.b[c.off..][1..];
  }

  lemma TakesN(c: Cur, x: seq<byte>, rest: seq<byte>)
    requires At(c, x + rest)
    ensures TakeN(c, |x|).0 == x && At(TakeN(c, |x|).1, rest)
  {
    var left := c.b[c.off..];
    assert c.b[c.off..c.off + |x|] == left[..|x|] == x;
    assert c.b[c.off + |x|..] == left[|x|..] == rest;
  }

  /** A length-prefixed field yields as many octets as its 16-bit length says: all of them exactly when they fit. */
  lemma TakesPrefixed(c: Cur, x: seq<byte>, rest: seq<byte>)
    requires At(c, Sized(x) + rest)
    ensures |x| < U16_LIMIT ==> TakePrefixed(c).0 == x && At(TakePrefixed(c).1, rest)
    ensures !TakePrefixed(c).1.err && |TakePrefixed(c).0| == |x| % U16_LIMIT
  {
    var left := c.b[c.off..];
    assert left == U16(|x|) + (x + rest);
    assert c.b[c.off..c.off + 2] == left[..2] == U16(|x|);
    U16ReadsBack(|x|);
    var d := c.(off := c.off + 2);
    assert d.b[d.off..] == left[2..] == x + rest;
    if |x| < U16_LIMIT {
      TakesN(d, x, rest);
    }
  }

  /** Role, token, options, nonce and time come back exactly when token and options fit their 16-bit lengths. */
  lemma ClientRoundTrip(p: Payload, nonce: seq<byte>, ts: int, pad: seq<byte>)
    requires IsI64(ts) && |nonce| == NONCE_LEN
    ensures ParseClient(BuildClient(p, nonce, ts, pad)) == Good(ClientHello(p, nonce, ts))
       <==> |p.token| < U16_LIMIT && |p.opts| < U16_LIMIT
  {
    var pt := BuildClient(p, nonce, ts, pad);
    var r5 := Sized(pad);
    var r4 := Sized(p.opts) + r5;
    var r3 := Sized(p.token) + r4;
    var r2 := I64(ts) + r3;
    var r1 := nonce + r2;
    var c0 := Cur(pt, 0, false);
    assert pt == [VERSION] + ([p.role] + r1);
    TakesByte(c0, VERSION, [p.role] + r1);
    var c1 := TakeByte(c0).1;
    TakesByte(c1, p.role, r1);
    var c2 := TakeByte(c1).1;
    TakesN(c2, nonce, r2);
    var c3 := TakeN(c2, NONCE_LEN).1;
    TakesN(c3, I64(ts), r3);
    I64ReadsBack(ts);
    TokenAndOptions(TakeN(c3, 8).1, p, pad);
  }

  lemma TokenAndOptions(c: Cur, p: Payload, pad: seq<byte>)
    requires At(c, Sized(p.token) + (Sized(p.opts) + Sized(pad)))
    ensures var (token, d) := TakePrefixed(c); var (opts, e) := TakePrefixed(d); var (_, f) := TakePrefixed(e);
      !f.err && token == p.token && opts == p.opts <==> |p.token| < U16_LIMIT && |p.opts| < U16_LIMIT
  {
    TakesPrefixed(c, p.token, Sized(p.opts) + Sized(pad));
    if |p.token| < U16_LIMIT {
      var d := TakePrefixed(c).1;
      TakesPrefixed(d, p.opts, Sized(pad));
      if |p.opts| < U16_LIMIT {
        assert Sized(pad) == Sized(pad) + [];
        TakesPrefixed(TakePrefixed(d).1, pad, []);
      }
    }
  }

  lemma TookByte(c: Cur, left: seq<byte>)
    requires At(c, left) && !TakeByte(c).1.err
    ensures var (v, d) := TakeByte(c); left != [] && left == [v] + left[1..] && At(d, left[1..])
  {
    assert c.b[c.off] == c.b[c.off..][0];
    assert c.b[c.off + 1..] == c.b[c.off..][1..];
  }

  lemma TookN(c: Cur, n: nat, left: seq<byte>)
    requires At(c, left) && !TakeN(c, n).1.err
    ensures var (x, d) := TakeN(c, n); n <= |left| && left == x + left[n..] && At(d, left[n..])
  {
    assert c.b[c.off..c.off + n] == c.b[c.off..][..n];
    assert c.b[c.off + n..] == c.b[c.off..][n..];
  }

  lemma TookPrefixed(c: Cur, left: seq<byte>) returns (rest: seq<byte>)
    requires At(c, left) && !TakePrefixed(c).1.err
    ensures var (x, d) := TakePrefixed(c); |x| < U16_LIMIT && left == Sized(x) + rest && At(d, rest)
  {
    var d := c.(off := c.off + 2);
    assert c.b[c.off..c.off + 2] == left[..2];
    assert d.b[d.off..] == left[2..];
    var n := ReadU16(left[..2]);
    TookN(d, n, left[2..]);
    U16Printed(left[..2]);
    var x := TakePrefixed(c).0;
    rest := left[2..][n..];
    assert left == left[..2] + left[2..];
    Assoc(U16(n), x, rest);
  }

  /** The octets of a hello with its three length-prefixed fields, and anything behind them. */
  ghost predicate ClientLaidOut(pt: seq<byte>, h: ClientHello, pad: seq<byte>, more: seq<byte>) {
    && |h.nonce| == NONCE_LEN && IsI64(h.ts) && |h.payload.token| < U16_LIMIT && |h.payload.opts| < U16_LIMIT && |pad| < U16_LIMIT
    && pt == [VERSION, h.payload.role] + (h.nonce + (I64(h.ts) + (Sized(h.payload.token) + (Sized(h.payload.opts) + (Sized(pad) + more)))))
  }

  /** A plaintext is taken for a hello exactly when it is laid out as one, of version 1; octets behind the pad are ignored. */
  lemma ClientParsesIff(pt: seq<byte>, h: ClientHello)
    ensures ParseClient(pt) == Good(h) <==> exists pad, more :: ClientLaidOut(pt, h, pad, more)
  {
    if ParseClient(pt) == Good(h) {
      var pad, more := ClientParsed(pt, h);
    }
    if pad, more :| ClientLaidOut(pt, h, pad, more) {
      ClientReads(pt, h, pad, more);
    }
  }

  lemma ClientReads(pt: seq<byte>, h: ClientHello, pad: seq<byte>, more: seq<byte>)
    requires ClientLaidOut(pt, h, pad, more)
    ensures ParseClient(pt) == Good(h)
  {
    var r5 := Sized(pad) + more;
    var r4 := Sized(h.payload.opts) + r5;
    var r3 := Sized(h.payload.token) + r4;
    var r2 := I64(h.ts) + r3;
    var r1 := h.nonce + r2;
    var c0 := Cur(pt, 0, false);
    assert pt == [VERSION] + ([h.payload.role] + r1);
    TakesByte(c0, VERSION, [h.payload.role] + r1);
    var c1 := TakeByte(c0).1;
    TakesByte(c1, h.payload.role, r1);
    var c2 := TakeByte(c1).1;
    TakesN(c2, h.nonce, r2);
    var c3 := TakeN(c2, NONCE_LEN).1;
    TakesN(c3, I64(h.ts), r3);
    I64ReadsBack(h.ts);
    ThreePrefixed(TakeN(c3, 8).1, h.payload.token, h.payload.opts, pad, more);
  }

  lemma ThreePrefixed(c: Cur, x: seq<byte>, y: seq<byte>, z: seq<byte>, more: seq<byte>)
    requires At(c, Sized(x) + (Sized(y) + (Sized(z) + more))) && |x| < U16_LIMIT && |y| < U16_LIMIT && |z| < U16_LIMIT
    ensures var (x', d) := TakePrefixed(c); var (y', e) := TakePrefixed(d); var (_, f) := TakePrefixed(e);
      x' == x && y' == y && !f.err
  {
    TakesPrefixed(c, x, Sized(y) + (Sized(z) + more));
    var d := TakePrefixed(c).1;
    TakesPrefixed(d, y, Sized(z) + more);
    TakesPrefixed(TakePrefixed(d).1, z, more);
  }

  lemma ClientParsed(pt: seq<byte>, h: ClientHello) returns (pad: seq<byte>, more: seq<byte>)
    requires ParseClient(pt) == Good(h)
    ensures ClientLaidOut(pt, h, pad, more)
  {
    var c0 := Cur(pt, 0, false);
    var c1 := TakeByte(c0).1;
    var c2 := TakeByte(c1).1;
    var c3 := TakeN(c2, NONCE_LEN).1;
    var c4 := TakeN(c3, 8).1;
    NoErrors(c0, c1, c2, c3, c4);
    assert pt[0..] == pt;
    TookByte(c0, pt);
    TookByte(c1, pt[1..]);
    var r1 := pt[1..][1..];
    TookN(c2, NONCE_LEN, r1);
    var r2 := r1[NONCE_LEN..];
    TookN(c3, 8, r2);
    var r3 := r2[8..];
    I64Printed(r2[..8]);
    pad, more := ThreeTaken(c4, r3, h.payload.token, h.payload.opts);
    assert pt == [VERSION, h.payload.role] + r1;
  }

  lemma NoErrors(c0: Cur, c1: Cur, c2: Cur, c3: Cur, c4: Cur)
    requires c1 == TakeByte(c0).1 && c2 == TakeByte(c1).1 && c3 == TakeN(c2, NONCE_LEN).1 && c4 == TakeN(c3, 8).1
    requires !TakePrefixed(TakePrefixed(TakePrefixed(c4).1).1).1.err
    ensures !c1.err && !c2.err && !c3.err && !c4.err && !TakePrefixed(c4).1.err && !TakePrefixed(TakePrefixed(c4).1).1.err
  {}

  lemma ThreeTaken(c: Cur, left: seq<byte>, x: seq<byte>, y: seq<byte>) returns (z: seq<byte>, more: seq<byte>)
    requires At(c, left) && x == TakePrefixed(c).0 && y == TakePrefixed(TakePrefixed(c).1).0
    requires !TakePrefixed(c).1.err && !TakePrefixed(TakePrefixed(c).1).1.err && !TakePrefixed(TakePrefixed(TakePrefixed(c).1).1).1.err
    ensures |x| < U16_LIMIT && |y| < U16_LIMIT && |z| < U16_LIMIT
    ensures left == Sized(x) + (Sized(y) + (Sized(z) + more))
  {
    var r4 := TookPrefixed(c, left);
    var d := TakePrefixed(c).1;
    var r5 := TookPrefixed(d, r4);
    var e := TakePrefixed(d).1;
    z := TakePrefixed(e).0;
    more := TookPrefixed(e, r5);
  }

  ghost predicate ServerLaidOut(pt: seq<byte>, nonce: seq<byte>, caps: seq<byte>, pad: seq<byte>, more: seq<byte>) {
    |nonce| == NONCE_LEN && |caps| < U16_LIMIT && |pad| < U16_LIMIT && pt == nonce + (Sized(caps) + (Sized(pad) + more))
  }

  /** The same for the server's reply. */
  lemma ServerParsesIff(pt: seq<byte>, nonce: seq<byte>, caps: seq<byte>)
    ensures ParseServer(pt) == Good((nonce, caps)) <==> exists pad, more :: ServerLaidOut(pt, nonce, caps, pad, more)
  {
    var c0 := Cur(pt, 0, false);
    var c1 := TakeN(c0, NONCE_LEN).1;
    var c2 := TakePrefixed(c1).1;
    assert pt[0..] == pt;
    if ParseServer(pt) == Good((nonce, caps)) {
      TookN(c0, NONCE_LEN, pt);
      var r2 := TookPrefixed(c1, pt[NONCE_LEN..]);
      var more := TookPrefixed(c2, r2);
      assert ServerLaidOut(pt, nonce, caps, TakePrefixed(c2).0, more);
    }
    if pad, more :| ServerLaidOut(pt, nonce, caps, pad, more) {
      TakesN(c0, nonce, Sized(caps) + (Sized(pad) + more));
      TakesPrefixed(c1, caps, Sized(pad) + more);
      TakesPrefixed(c2, pad, more);
    }
  }

  lemma ServerRoundTrip(nonce: seq<byte>, caps: seq<byte>, pad: seq<byte>)
    requires |nonce| == NONCE_LEN
    ensures ParseServer(BuildServer(nonce, caps, pad)) == Good((nonce, caps)) <==> |caps| < U16_LIMIT
  {
    var pt := BuildServer(nonce, caps, pad);
    var c0 := Cur(pt, 0, false);
    assert pt[0..] == pt;
    TakesN(c0, nonce, Sized(caps) + Sized(pad));
    var c1 := TakeN(c0, NONCE_LEN).1;
    TakesPrefixed(c1, caps, Sized(pad));
    if |caps| < U16_LIMIT {
      assert Sized(pad) == Sized(pad) + [];
      TakesPrefixed(TakePrefixed(c1).1, pad, []);
    }
  }
}

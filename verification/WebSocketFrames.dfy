/** The WebSocket frame writer and reader (sections 5.2 and 5.3 of RFC 6455). */
module WebSocketFrames {
  import opened Bytes

  const MAX_FRAME_PAYLOAD: nat := 64 * 1024

  datatype Frame = Frame(fin: bool, opcode: nat, payload: seq<byte>)

  // --- masking ---

  /** Each byte exclusive-or the mask byte of its position modulo 4. */
  function Masked(data: seq<byte>, key: seq<byte>): (m: seq<byte>)
    requires |key| == 4
    ensures |m| == |data|
  {
    seq(|data|, i requires 0 <= i < |data| => Xor(data[i], key[i % 4]))
  }

  lemma MaskedTwice(data: seq<byte>, key: seq<byte>)
    requires |key| == 4
    ensures Masked(Masked(data, key), key) == data
  {
    forall i | 0 <= i < |data|
      ensures Masked(Masked(data, key), key)[i] == data[i]
    {
      XorTwice(data[i], key[i % 4]);
    }
  }

  /** websocket_apply_mask */
  method ApplyMask(data: array<byte>, key: seq<byte>)
    requires |key| == 4
    modifies data
    ensures data[..] == Masked(old(data[..]), key)
    ensures forall i | 0 <= i < data.Length :: Xor(data[i], old(data[i])) == key[i % 4]
  {
    hide Xor;
    var i := 0;
    while i < data.Length
      invariant i <= data.Length
      invariant forall j | 0 <= j < data.Length ::
        data[j] == if j < i then Masked(old(data[..]), key)[j] else old(data[j])
      invariant forall j | 0 <= j < i :: Xor(data[j], old(data[j])) == key[j % 4]
    {
      XorCancels(data[i], key[i % 4]);
      data[i] := Xor(data[i], key[i % 4]);
      i := i + 1;
    }
  }

  // --- the format ---

  /** The payload length in its shortest form, with the mask bit. */
  function LengthField(n: nat, masked: bool): seq<byte>
    requires n < TWO64
  {
    var bit := if masked then 128 else 0;
    if n <= 125 then [bit + n]
    else if n <= 0xFFFF then [bit + 126] + ToBE(n, 2)
    else [bit + 127] + ToBE(n, 8)
  }

  /** A frame as section 5.2 lays it out, under `key` when there is one. */
  function Print(f: Frame, key: Option<seq<byte>>): seq<byte>
    requires f.opcode < 16 && |f.payload| < TWO64 && (key.Some? ==> |key.value| == 4)
  {
    [(if f.fin then 128 else 0) + f.opcode]
    + LengthField(|f.payload|, key.Some?)
    + (if key.Some? then key.value + Masked(f.payload, key.value) else f.payload)
  }

  datatype Parsed = Bad | Good(frame: Frame, rest: seq<byte>)

  /** The extended length after the two header bytes: its value and what follows it. */
  function ParseLength(short: nat, s: seq<byte>): Option<(nat, seq<byte>)>
    requires short < 128
  {
    if short < 126 then Some((short, s))
    else
      var k := if short == 126 then 2 else 8;
      if |s| < k then None else Some((FromBE(s[..k]), s[k..]))
  }

  function ParseBody(fin: bool, opcode: nat, masked: bool, length: nat, s: seq<byte>): Parsed {
    if length > MAX_FRAME_PAYLOAD then Bad
    else if masked && |s| < 4 then Bad
    else
      var body := if masked then s[4..] else s;
      if |body| < length then Bad
      else Good(Frame(fin, opcode, if masked then Masked(body[..length], s[..4]) else body[..length]), body[length..])
  }

  /** What ws_read_frame makes of the bytes that are to come. */
  function Parse(s: seq<byte>): Parsed {
    if |s| < 2 then Bad
    else
      match ParseLength(s[1] % 128, s[2..])
      case None => Bad
      case Some((length, rest)) => ParseBody(s[0] >= 128, s[0] % 16, s[1] >= 128, length, rest)
  }

  lemma LengthRoundTrip(n: nat, masked: bool, rest: seq<byte>)
    requires n < TWO64
    ensures var field := LengthField(n, masked);
      && (field[0] >= 128 <==> masked)
      && ParseLength(field[0] % 128, field[1..] + rest) == Some((n, rest))
  {
    var field := LengthField(n, masked);
    if n > 125 {
      var k := if n <= 0xFFFF then 2 else 8;
      Pow256Values();
      BERoundTrip(n, k);
      var s := field[1..] + rest;
      assert s[..k] == ToBE(n, k) && s[k..] == rest;
    } else {
      assert field[1..] + rest == rest;
    }
  }

  lemma Pow256Values()
    ensures Pow256(2) == 0x1_0000 && Pow256(8) == TWO64
  {
    assert Pow256(4) == 256 * 256 * Pow256(2);
    assert Pow256(6) == 256 * 256 * Pow256(4);
  }

  lemma BodyRoundTrip(f: Frame, key: Option<seq<byte>>, rest: seq<byte>)
    requires |f.payload| <= MAX_FRAME_PAYLOAD && (key.Some? ==> |key.value| == 4)
    ensures var body := if key.Some? then key.value + Masked(f.payload, key.value) else f.payload;
      ParseBody(f.fin, f.opcode, key.Some?, |f.payload|, body + rest) == Good(f, rest)
  {
    if key.Some? {
      var masked := Masked(f.payload, key.value);
      var s := key.value + masked + rest;
      assert s[..4] == key.value && s[4..] == masked + rest;
      assert (masked + rest)[..|masked|] == masked && (masked + rest)[|masked|..] == rest;
      MaskedTwice(f.payload, key.value);
    } else {
      assert (f.payload + rest)[..|f.payload|] == f.payload && (f.payload + rest)[|f.payload|..] == rest;
    }
  }

  lemma OversizeBody(f: Frame, masked: bool, s: seq<byte>)
    requires |f.payload| > MAX_FRAME_PAYLOAD
    ensures ParseBody(f.fin, f.opcode, masked, |f.payload|, s) == Bad
  {
  }

  /** Reading undoes writing, in all three length forms, masked under any key or
      not, exactly for payloads of up to 64 KiB; longer ones are refused. */
  lemma FrameRoundTrip(f: Frame, key: Option<seq<byte>>, rest: seq<byte>)
    requires f.opcode < 16 && |f.payload| < TWO64 && (key.Some? ==> |key.value| == 4)
    ensures Parse(Print(f, key) + rest) == if |f.payload| <= MAX_FRAME_PAYLOAD then Good(f, rest) else Bad
  {
    hide Masked, ParseBody, ParseLength, LengthField;
    var field := LengthField(|f.payload|, key.Some?);
    var body := if key.Some? then key.value + Masked(f.payload, key.value) else f.payload;
    LengthRoundTrip(|f.payload|, key.Some?, body + rest);
    if |f.payload| <= MAX_FRAME_PAYLOAD {
      BodyRoundTrip(f, key, rest);
    } else {
      OversizeBody(f, key.Some?, body + rest);
    }
    FieldNotEmpty(|f.payload|, key.Some?);
    var s := Print(f, key) + rest;
    assert s == [s[0]] + field + (body + rest);
    assert s[1] == field[0] && s[2..] == field[1..] + (body + rest);
  }

  lemma FieldNotEmpty(n: nat, masked: bool)
    requires n < TWO64
    ensures |LengthField(n, masked)| >= 1
  {
  }

  // --- the format, byte by byte ---

  /** Where the payload length has ended: the place of the mask, or of the payload. */
  function LengthEnd(short: nat): nat {
    if short < 126 then 2 else if short == 126 then 4 else 10
  }

  lemma MaskByte(data: seq<byte>, key: seq<byte>, i: nat)
    requires |key| == 4 && i < |data|
    ensures Xor(Masked(data, key)[i], data[i]) == key[i % 4]
  {
    hide Xor;
    XorCancels(data[i], key[i % 4]);
  }

  /** When the bytes are a frame: they are all there, and announce at most 64 KiB. */
  lemma ReadableIff(s: seq<byte>)
    ensures Parse(s).Good? <==>
      && |s| >= 2
      && var at := LengthEnd(s[1] % 128);
      && |s| >= at
      && var n := if at == 2 then s[1] % 128 else FromBE(s[2..at]);
         n <= 65536 && |s| >= at + (if s[1] >= 128 then 4 else 0) + n
  {
    hide Masked, FromBE;
    if |s| >= 2 && |s| >= LengthEnd(s[1] % 128) {
      LengthAt(s);
    }
  }

  lemma LengthAt(s: seq<byte>)
    requires |s| >= 2 && |s| >= LengthEnd(s[1] % 128)
    ensures var at := LengthEnd(s[1] % 128);
      ParseLength(s[1] % 128, s[2..]) == Some((if at == 2 then s[1] % 128 else FromBE(s[2..at]), s[at..]))
  {
    hide FromBE;
    var at := LengthEnd(s[1] % 128);
    assert s[2..][..at - 2] == s[2..at] && s[2..][at - 2..] == s[at..];
  }

  /** Each byte of the payload, exclusive-or the byte it was read from, is the mask byte at its position modulo 4:
      the mask stands at `at`, and the bytes behind it. */
  ghost predicate Unmasks(payload: seq<byte>, s: seq<byte>, at: nat) {
    |s| >= at + 4 + |payload| && forall i | 0 <= i < |payload| :: Xor(payload[i], s[at + 4 + i]) == s[at + i % 4]
  }

  /** The payload behind the length, with its mask when it has one. */
  lemma BodyLayout(fin: bool, opcode: nat, masked: bool, n: nat, s: seq<byte>)
    requires ParseBody(fin, opcode, masked, n, s).Good?
    ensures var r := ParseBody(fin, opcode, masked, n, s); var payload := r.frame.payload;
      && r.frame.fin == fin && r.frame.opcode == opcode && |payload| == n <= 65536
      && (!masked ==> |s| >= n && payload == s[..n] && r.rest == s[n..])
      && (masked ==> Unmasks(payload, s, 0) && r.rest == s[4 + n..])
  {
    hide Masked, Xor;
    if masked {
      assert s[4..][..n] == s[4..4 + n] && s[4..][n..] == s[4 + n..];
      forall i | 0 <= i < n
        ensures Xor(Masked(s[4..4 + n], s[..4])[i], s[4 + i]) == s[i % 4]
      {
        MaskByte(s[4..4 + n], s[..4], i);
      }
    }
  }

  /** What the reader makes of any bytes that are a frame: final bit and opcode from the first byte, the length
      from its field, the payload as it stands or, when the mask bit is set, unmasked. */
  lemma FrameLayout(s: seq<byte>)
    requires Parse(s).Good?
    ensures |s| >= 2 && |s| >= LengthEnd(s[1] % 128)
    ensures var at := LengthEnd(s[1] % 128); var f := Parse(s).frame; var n := |f.payload|;
      && (f.fin <==> s[0] >= 128) && f.opcode == s[0] % 16
      && n <= 65536 && n == (if at == 2 then s[1] % 128 else FromBE(s[2..at]))
      && (s[1] < 128 ==> |s| >= at + n && f.payload == s[at..at + n] && Parse(s).rest == s[at + n..])
      && (s[1] >= 128 ==> |s| >= at + 4 + n && Unmasks(f.payload, s, at) && Parse(s).rest == s[at + 4 + n..])
  {
    hide ParseBody, ParseLength, Unmasks, FromBE;
    ReadableIff(s);
    LengthAt(s);
    var at := LengthEnd(s[1] % 128);
    var n := if at == 2 then s[1] % 128 else FromBE(s[2..at]);
    BodyLayout(s[0] >= 128, s[0] % 16, s[1] >= 128, n, s[at..]);
    SlicesFrom(s, at, n);
    SlicesFrom(s, at, 4 + n);
    if s[1] >= 128 {
      UnmasksFrom(s, at, Parse(s).frame.payload);
    }
  }

  lemma UnmasksFrom(s: seq<byte>, at: nat, payload: seq<byte>)
    requires at <= |s| && Unmasks(payload, s[at..], 0)
    ensures Unmasks(payload, s, at)
  {
    hide Xor;
    forall i | 0 <= i < |payload|
      ensures Xor(payload[i], s[at + 4 + i]) == s[at + i % 4]
    {
      assert s[at..][4 + i] == s[at + 4 + i] && s[at..][i % 4] == s[at + i % 4];
    }
  }

  lemma SlicesFrom(s: seq<byte>, at: nat, n: nat)
    requires at <= |s|
    ensures at + n <= |s| ==> s[at..][..n] == s[at..at + n] && s[at..][n..] == s[at + n..]
  {
  }

  /** A printed frame has no reserved bit set and its length in the shortest form. */
  lemma PrintLayout(f: Frame, key: Option<seq<byte>>)
    requires f.opcode < 16 && |f.payload| < TWO64 && (key.Some? ==> |key.value| == 4)
    ensures var s := Print(f, key); var n := |f.payload|;
      && |s| == LengthEnd(if n <= 125 then n else if n < 65536 then 126 else 127) + (if key.Some? then 4 else 0) + n
      && s[0] / 16 % 8 == 0 && s[0] % 16 == f.opcode && (s[0] >= 128 <==> f.fin)
      && s[1] % 128 == (if n <= 125 then n else if n < 65536 then 126 else 127)
      && (s[1] >= 128 <==> key.Some?)
  {
    hide Masked, ToBE;
  }

  /** Writing undoes reading: a frame without reserved bits whose length is in the shortest form is what the
      printer makes of what was read, under some mask. */
  lemma PrintUndoesParse(s: seq<byte>)
    requires Parse(s).Good? && s[0] / 16 % 8 == 0
    requires var n := |Parse(s).frame.payload|; s[1] % 128 == if n <= 125 then n else if n < 65536 then 126 else 127
    ensures var f, key := Parse(s).frame, MaskOf(s); s == Print(f, key) + Parse(s).rest
  {
    hide Masked, Unmasks, FromBE, Parse, LengthField, Print, MaskOf;
    FrameLayout(s);
    FieldRead(s, |Parse(s).frame.payload|);
    HeadByte(s[0]);
    if s[1] >= 128 {
      MaskedPrinted(s, LengthEnd(s[1] % 128), Parse(s).frame);
    } else {
      PlainPrinted(s, LengthEnd(s[1] % 128), Parse(s).frame);
    }
    MaskIs(s);
  }

  lemma MaskIs(s: seq<byte>)
    requires |s| >= 2
    ensures var at := LengthEnd(s[1] % 128);
      MaskOf(s) == if s[1] >= 128 && |s| >= at + 4 then Some(s[at..at + 4]) else None
  {
  }

  /** The first byte and the length field are those that the printer makes. */
  predicate Fronts(s: seq<byte>, at: nat, f: Frame, masked: bool) {
    && f.opcode < 16 && |f.payload| < TWO64 && 1 <= at <= |s|
    && s[0] == (if f.fin then 128 else 0) + f.opcode && s[1..at] == LengthField(|f.payload|, masked)
  }

  lemma MaskedPrinted(s: seq<byte>, at: nat, f: Frame)
    requires Fronts(s, at, f, true) && at + 4 + |f.payload| <= |s| && Unmasks(f.payload, s, at)
    ensures s == Print(f, Some(s[at..at + 4])) + s[at + 4 + |f.payload|..]
  {
    hide Masked, Unmasks, LengthField, Print;
    Parts(s, at);
    MaskedParts(s, at, f.payload);
    PrintIs(f, Some(s[at..at + 4]));
  }

  lemma PlainPrinted(s: seq<byte>, at: nat, f: Frame)
    requires Fronts(s, at, f, false) && at + |f.payload| <= |s| && f.payload == s[at..at + |f.payload|]
    ensures s == Print(f, None) + s[at + |f.payload|..]
  {
    hide LengthField, Print;
    Parts(s, at);
    PlainParts(s, at, |f.payload|);
    PrintIs(f, None);
  }

  lemma HeadByte(b: byte)
    requires b / 16 % 8 == 0
    ensures b == (if b >= 128 then 128 else 0) + b % 16
  {
  }

  lemma PrintIs(f: Frame, key: Option<seq<byte>>)
    requires f.opcode < 16 && |f.payload| < TWO64 && (key.Some? ==> |key.value| == 4)
    ensures Print(f, key) == [(if f.fin then 128 else 0) + f.opcode] + LengthField(|f.payload|, key.Some?)
                             + (if key.Some? then key.value + Masked(f.payload, key.value) else f.payload)
  {
    hide LengthField, Masked;
  }

  lemma Parts(s: seq<byte>, at: nat)
    requires 1 <= at <= |s|
    ensures s == [s[0]] + s[1..at] + s[at..]
  {
  }

  lemma PlainParts(s: seq<byte>, at: nat, n: nat)
    requires 1 <= at && at + n <= |s|
    ensures [s[0]] + s[1..at] + s[at..] == [s[0]] + s[1..at] + s[at..at + n] + s[at + n..]
  {
  }

  lemma MaskedParts(s: seq<byte>, at: nat, payload: seq<byte>)
    requires 1 <= at && Unmasks(payload, s, at)
    ensures var key := s[at..at + 4];
      [s[0]] + s[1..at] + s[at..] == [s[0]] + s[1..at] + (key + Masked(payload, key)) + s[at + 4 + |payload|..]
  {
    hide Masked, Xor;
    var n, key := |payload|, s[at..at + 4];
    forall i | 0 <= i < n
      ensures Masked(payload, key)[i] == s[at + 4 + i]
    {
      MaskedBack(payload, s[at + 4..at + 4 + n], key, i);
    }
    assert Masked(payload, key) == s[at + 4..at + 4 + n];
  }

  /** The mask of a frame that has one. */
  function MaskOf(s: seq<byte>): (key: Option<seq<byte>>)
    requires |s| >= 2
    ensures key.Some? ==> |key.value| == 4
  {
    var at := LengthEnd(s[1] % 128);
    if s[1] >= 128 && |s| >= at + 4 then Some(s[at..at + 4]) else None
  }

  lemma MaskedBack(payload: seq<byte>, raw: seq<byte>, key: seq<byte>, i: nat)
    requires |key| == 4 && i < |payload| == |raw| && Xor(payload[i], raw[i]) == key[i % 4]
    ensures Masked(payload, key)[i] == raw[i]
  {
    hide Xor;
    XorCancels(payload[i], raw[i]);
    XorSwaps(payload[i], key[i % 4]);
  }

  lemma FieldRead(s: seq<byte>, n: nat)
    requires |s| >= 2 && |s| >= LengthEnd(s[1] % 128) && n <= 65536
    requires var at := LengthEnd(s[1] % 128);
      && n == (if at == 2 then s[1] % 128 else FromBE(s[2..at]))
      && s[1] % 128 == if n <= 125 then n else if n < 65536 then 126 else 127
    ensures s[1..LengthEnd(s[1] % 128)] == LengthField(n, s[1] >= 128)
  {
    hide FromBE, ToBE;
    var at := LengthEnd(s[1] % 128);
    BEBytesRoundTrip(s[2..at]);
    assert s[1..at] == [s[1]] + s[2..at];
  }

  /** Section 5.7 of the RFC: "Hello" in a masked and in an unmasked frame. */
  lemma HelloFrames(rest: seq<byte>)
    ensures var hello := [0x48, 0x65, 0x6c, 0x6c, 0x6f];
      && Parse([0x81, 0x85, 0x37, 0xfa, 0x21, 0x3d, 0x7f, 0x9f, 0x4d, 0x51, 0x58] + rest)
         == Good(Frame(true, 1, hello), rest)
      && Parse([0x81, 0x05, 0x48, 0x65, 0x6c, 0x6c, 0x6f] + rest) == Good(Frame(true, 1, hello), rest)
      && Print(Frame(true, 1, hello), None) == [0x81, 0x05, 0x48, 0x65, 0x6c, 0x6c, 0x6f]
  {
    hide Xor, Parse, Masked, Print;
    var frame := Frame(true, 1, [0x48, 0x65, 0x6c, 0x6c, 0x6f]);
    HelloPrinted();
    FrameRoundTrip(frame, None, rest);
    FrameRoundTrip(frame, Some([0x37, 0xfa, 0x21, 0x3d]), rest);
  }

  lemma HelloPrinted()
    ensures var frame := Frame(true, 1, [0x48, 0x65, 0x6c, 0x6c, 0x6f]);
      && Print(frame, None) == [0x81, 0x05, 0x48, 0x65, 0x6c, 0x6c, 0x6f]
      && Print(frame, Some([0x37, 0xfa, 0x21, 0x3d]))
         == [0x81, 0x85, 0x37, 0xfa, 0x21, 0x3d, 0x7f, 0x9f, 0x4d, 0x51, 0x58]
  {
    hide Xor;
    HelloMasked();
    assert Masked([0x48, 0x65, 0x6c, 0x6c, 0x6f], [0x37, 0xfa, 0x21, 0x3d]) == [0x7f, 0x9f, 0x4d, 0x51, 0x58];
  }

  lemma HelloMasked()
    ensures Xor(0x48, 0x37) == 0x7f && Xor(0x65, 0xfa) == 0x9f && Xor(0x6c, 0x21) == 0x4d && Xor(0x6c, 0x3d) == 0x51
    ensures Xor(0x6f, 0x37) == 0x58
  {
  }

  // --- streams of frames ---

  /** A frame to print and the key to print it under. */
  datatype Printable = Printable(frame: Frame, key: Option<seq<byte>>) {
    predicate Ok() {
      frame.opcode < 16 && |frame.payload| <= MAX_FRAME_PAYLOAD && (key.Some? ==> |key.value| == 4)
    }
  }

  function PrintAll(ps: seq<Printable>): seq<byte>
    requires forall i | 0 <= i < |ps| :: ps[i].Ok()
  {
    if ps == [] then []
    else
      assert ps[0].Ok();
      Print(ps[0].frame, ps[0].key) + PrintAll(ps[1..])
  }

  function FramesOf(ps: seq<Printable>): (fs: seq<Frame>)
    ensures |fs| == |ps|
  {
    seq(|ps|, i requires 0 <= i < |ps| => ps[i].frame)
  }

  /** `n` frames read one after another: None when one of them does not parse. */
  function ParseMany(s: seq<byte>, n: nat): Option<(seq<Frame>, seq<byte>)> {
    if n == 0 then Some(([], s))
    else
      match Parse(s)
      case Bad => None
      case Good(f, rest) =>
        var r := ParseMany(rest, n - 1);
        if r.None? then None else Some(([f] + r.value.0, r.value.1))
  }

  /** Any sequence of frames, masked and unmasked mixed, is read back as it was written. */
  lemma {:induction false} StreamRoundTrip(ps: seq<Printable>, rest: seq<byte>)
    requires forall i | 0 <= i < |ps| :: ps[i].Ok()
    ensures ParseMany(PrintAll(ps) + rest, |ps|) == Some((FramesOf(ps), rest))
  {
    hide Print, Parse;
    if ps == [] {
      assert PrintAll(ps) + rest == rest;
    } else {
      var tail := PrintAll(ps[1..]) + rest;
      assert PrintAll(ps) + rest == Print(ps[0].frame, ps[0].key) + tail;
      FrameRoundTrip(ps[0].frame, ps[0].key, tail);
      StreamRoundTrip(ps[1..], rest);
      assert FramesOf(ps) == [ps[0].frame] + FramesOf(ps[1..]);
    }
  }

  // --- the connection and the code ---

  /** A connection: the bytes it will still deliver before it ends, those written to it, and how many more it
      takes before writing fails. */
  class Connection {
    var input: seq<byte>
    var output: seq<byte>
    var capacity: nat

    constructor (input: seq<byte>, capacity: nat)
      ensures this.input == input && output == [] && this.capacity == capacity
    {
      this.input, this.output, this.capacity := input, [], capacity;
    }

    /** io_read: some of the bytes asked for, at least one; -1 at the end. */
    method Read(buf: array<byte>, at: nat, len: nat) returns (n: int)
      requires at + len <= buf.Length
      modifies `input, buf
      ensures n == -1 <==> len == 0 || old(input) == []
      ensures n == -1 ==> input == old(input) && buf[..] == old(buf[..])
      ensures n != -1 ==>
        && 1 <= n <= len && n <= |old(input)|
        && input == old(input)[n..]
        && buf[..at + n] == old(buf[..at]) + old(input)[..n]
    {
      if len == 0 || |input| == 0 {
        return -1;
      }
      n :| 1 <= n <= len && n <= |input|;
      forall i | 0 <= i < n {
        buf[at + i] := input[i];
      }
      assert buf[at..at + n] == input[..n] && buf[..at] == old(buf[..at]);
      assert buf[..at + n] == buf[..at] + buf[at..at + n];
      input := input[n..];
    }

    /** io_write: takes some of the bytes, at least one; -1 when it takes none. */
    method Write(bytes: seq<byte>) returns (n: int)
      modifies `output, `capacity
      ensures n == -1 <==> bytes == [] || old(capacity) == 0
      ensures n == -1 ==> output == old(output) && capacity == old(capacity)
      ensures n != -1 ==>
        && 1 <= n <= |bytes| && n <= old(capacity)
        && capacity == old(capacity) - n && output == old(output) + bytes[..n]
    {
      if |bytes| == 0 || capacity == 0 {
        return -1;
      }
      n :| 1 <= n <= |bytes| && n <= capacity;
      output, capacity := output + bytes[..n], capacity - n;
    }

    /** read_exact: however the bytes come in, the next `buf.Length` of them. */
    method ReadExact(buf: array<byte>) returns (rc: int)
      modifies `input, buf
      ensures rc == (if buf.Length <= |old(input)| then 0 else -1)
      ensures rc == 0 ==> buf[..] == old(input)[..buf.Length] && input == old(input)[buf.Length..]
    {
      var total := 0;
      while total < buf.Length
        invariant total <= buf.Length && total <= |old(input)|
        invariant buf[..total] == old(input)[..total]
        invariant input == old(input)[total..]
      {
        var n := Read(buf, total, buf.Length - total);
        if n <= 0 {
          return -1;
        }
        total := total + n;
      }
      rc := 0;
    }

    /** write_all: everything, or what the connection takes and -1. */
    method WriteAll(bytes: seq<byte>) returns (rc: int)
      modifies `output, `capacity
      ensures rc == if |bytes| <= old(capacity) then 0 else -1
      ensures var n := Min(|bytes|, old(capacity));
        output == old(output) + bytes[..n] && capacity == old(capacity) - n
    {
      var total := 0;
      while total < |bytes|
        invariant total <= |bytes| && total <= old(capacity)
        invariant output == old(output) + bytes[..total] && capacity == old(capacity) - total
      {
        var n := Write(bytes[total..]);
        if n <= 0 {
          return -1;
        }
        assert bytes[..total] + bytes[total..][..n] == bytes[..total + n];
        total := total + n;
      }
      rc := 0;
    }

    /** The next `k` bytes as a number, most significant first. */
    method ReadNumber(k: nat) returns (rc: int, v: nat)
      modifies `input
      ensures rc == (if k <= |old(input)| then 0 else -1)
      ensures rc == 0 ==> v == FromBE(old(input)[..k]) && input == old(input)[k..]
    {
      v := 0;
      var extended := new byte[k];
      rc := ReadExact(extended);
      if rc != 0 {
        return;
      }
      var i := 0;
      while i < k
        invariant i <= k
        invariant v == FromBE(extended[..i])
      {
        assert extended[..i + 1][..i] == extended[..i];
        v := 256 * v + extended[i];
        i := i + 1;
      }
      assert extended[..k] == extended[..];
    }

    /** The payload of a frame whose header has been read. */
    method ReadBody(fin: bool, opcode: nat, masked: bool, length: nat) returns (rc: int, f: Option<Frame>)
      modifies `input
      ensures match ParseBody(fin, opcode, masked, length, old(input))
        case Bad => rc == -1
        case Good(frame, rest) => rc == 0 && f == Some(frame) && input == rest
    {
      f := None;
      if length > MAX_FRAME_PAYLOAD {
        return -1, f;
      }
      var key := new byte[4];
      if masked {
        rc := ReadExact(key);
        if rc != 0 {
          return;
        }
      }
      ghost var body := input;
      var payload := new byte[length];
      rc := ReadExact(payload);
      if rc != 0 {
        return;
      }
      if masked && length > 0 {
        ApplyMask(payload, key[..]);
      }
      f := Some(Frame(fin, opcode, payload[..]));
    }

    /** ws_read_frame */
    method ReadFrame() returns (rc: int, f: Option<Frame>)
      modifies `input
      ensures match Parse(old(input))
        case Bad => rc == -1
        case Good(frame, rest) => rc == 0 && f == Some(frame) && input == rest
    {
      hide ParseBody, Masked;
      f := None;
      var header := new byte[2];
      rc := ReadExact(header);
      if rc != 0 {
        return;
      }
      var length := header[1] % 128;
      if length == 126 {
        rc, length := ReadNumber(2);
      } else if length == 127 {
        rc, length := ReadNumber(8);
      }
      if rc != 0 {
        return;
      }
      rc, f := ReadBody(header[0] >= 128, header[0] % 16, header[1] >= 128, length);
    }

    /** ws_send_frame: the whole frame, or as much of it as the connection takes and -1. */
    method SendFrame(opcode: byte, payload: seq<byte>) returns (rc: int)
      requires |payload| < TWO64
      modifies `output, `capacity
      ensures var frame := Print(Frame(true, opcode % 16, payload), None);
        && rc == (if |frame| <= old(capacity) then 0 else -1)
        && output == old(output) + frame[..Min(|frame|, old(capacity))]
    {
      hide LengthField;
      var header := new byte[10];
      var headerLen := FillHeader(header, opcode, |payload|);
      ghost var head := header[..headerLen];
      assert Print(Frame(true, opcode % 16, payload), None) == head + payload;
      rc := WriteAll(header[..headerLen]);
      if rc != 0 {
        CutConcat(head, payload, old(capacity));
        return -1;
      }
      assert head[..|head|] == head;
      CutConcat(head, payload, old(capacity));
      if |payload| > 0 {
        rc := WriteAll(payload);
      }
    }
  }

  lemma CutConcat(a: seq<byte>, b: seq<byte>, n: nat)
    ensures (a + b)[..Min(|a + b|, n)]
         == if n < |a| then a[..n] else a + b[..Min(|b|, n - |a|)]
  {
  }

  /** The header of an unmasked, final frame. */
  method FillHeader(header: array<byte>, opcode: byte, n: nat) returns (headerLen: nat)
    requires header.Length == 10 && n < TWO64
    modifies header
    ensures headerLen <= 10 && header[..headerLen] == [128 + opcode % 16] + LengthField(n, false)
  {
    header[0] := 128 + opcode % 16;
    headerLen := 2;
    if n <= 125 {
      header[1] := n;
    } else if n <= 0xFFFF {
      header[1] := 126;
      assert header[..2] == [128 + opcode % 16, 126];
      PutBE(header, 2, n);
      headerLen := 4;
    } else {
      header[1] := 127;
      assert header[..2] == [128 + opcode % 16, 127];
      PutBE(header, 8, n);
      headerLen := 10;
    }
  }

  /** The `k` bytes of `v` after the first two of `header`, from the most significant on. */
  method PutBE(header: array<byte>, k: nat, v: nat)
    requires 2 + k <= header.Length
    modifies header
    ensures header[..2 + k] == old(header[..2]) + ToBE(v, k)
  {
    var i := 0;
    while i < k
      invariant i <= k
      invariant header[..2 + i] == old(header[..2]) + ToBE(v, k)[..i]
    {
      ToBEAt(v, k, i);
      header[2 + i] := ByteOf(v, k - 1 - i);
      i := i + 1;
    }
    assert ToBE(v, k)[..k] == ToBE(v, k);
  }
}

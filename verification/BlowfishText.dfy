/** BF_encode and BF_decode: the base 64 of bcrypt settings, whose alphabet and padding are its own. */
module BlowfishText {
  import opened Bytes

  // --- the alphabet ---

  /** BF_itoa64: "./", A-Z, a-z, 0-9 */
  function Symbol(v: nat): (c: byte)
    requires v < 64
  {
    if v < 2 then 46 + v else if v < 28 then 63 + v else if v < 54 then 69 + v else v - 6
  }

  /** BF_safe_atoi64 */
  function ValueOf(c: byte): (v: Option<nat>)
    ensures v.Some? ==> v.value < 64
  {
    if 46 <= c <= 47 then Some(c - 46)
    else if 65 <= c <= 90 then Some(c - 63)
    else if 97 <= c <= 122 then Some(c - 69)
    else if 48 <= c <= 57 then Some(c + 6)
    else None
  }

  lemma SymbolValue(v: nat)
    requires v < 64
    ensures ValueOf(Symbol(v)) == Some(v) && Symbol(v) != 0
  {
  }

  lemma ValueSymbol(c: byte)
    requires ValueOf(c).Some?
    ensures Symbol(ValueOf(c).value) == c
  {
  }

  /** The alphabet in order. */
  lemma SymbolIs(v: nat)
    requires v < 64
    ensures Symbol(v) as char
         == if v < 28 then "./ABCDEFGHIJKLMNOPQRSTUVWXYZ"[v] else if v < 54 then "abcdefghijklmnopqrstuvwxyz"[v - 28]
            else "0123456789"[v - 54]
  {
  }

  // --- the code's groups of three bytes and four characters ---

  /** `v >> n` */
  function Shr(v: nat, n: nat): nat {
    if n == 0 then v else Shr(v / 2, n - 1)
  }

  /** `v << n` */
  function Shl(v: nat, n: nat): nat
    decreases n
  {
    if n == 0 then v else Shl(2 * v, n - 1)
  }

  /** The `n` low bits of `v` */
  function Low(v: nat, n: nat): nat {
    if n == 0 then 0 else v % 2 + 2 * Low(v / 2, n - 1)
  }

  lemma ShrTwoMore(v: nat, n: nat)
    ensures Shr(v, n + 2) == Shr(v / 4, n)
  {
    assert Shr(v, n + 2) == Shr(v / 2, n + 1) == Shr(v / 2 / 2, n);
  }

  lemma ShrIs(v: nat)
    ensures Shr(v, 2) == v / 4 && Shr(v, 4) == v / 16 && Shr(v, 6) == v / 64
  {
    hide Shr;
    ShrTwoMore(v, 0);
    ShrTwoMore(v, 2);
    ShrTwoMore(v / 4, 0);
    ShrTwoMore(v, 4);
    ShrTwoMore(v / 4, 2);
    ShrTwoMore(v / 16, 0);
    ShrNone();
  }

  lemma ShrNone()
    ensures forall v: nat :: Shr(v, 0) == v
  {
  }

  lemma LowTwoMore(v: nat, n: nat)
    ensures Low(v, n + 2) == v % 4 + 4 * Low(v / 4, n)
  {
    var w := v / 2;
    assert Low(v, n + 2) == v % 2 + 2 * Low(w, n + 1) && Low(w, n + 1) == w % 2 + 2 * Low(w / 2, n);
    assert w / 2 == v / 4 && v % 4 == v % 2 + 2 * (w % 2);
  }

  lemma LowTwo(v: nat)
    ensures Low(v, 2) == v % 4
  {
    LowTwoMore(v, 0);
  }

  lemma LowFour(v: nat)
    ensures Low(v, 4) == v % 16
  {
    hide Low;
    LowTwoMore(v, 2);
    LowTwo(v / 4);
  }

  lemma LowSix(v: nat)
    ensures Low(v, 6) == v % 64
  {
    hide Low;
    LowTwoMore(v, 4);
    LowFour(v / 4);
    SixBits(v);
  }

  lemma SixBits(v: nat)
    ensures v % 4 + 4 * (v / 4 % 16) == v % 64
  {
    var w := v / 4;
    var q, r := w / 16, v % 4 + 4 * (w % 16);
    assert w == 16 * q + w % 16;
    assert v == 64 * q + r;
  }

  lemma LowIs(v: nat)
    ensures Low(v, 2) == v % 4 && Low(v, 4) == v % 16 && Low(v, 6) == v % 64
  {
    hide Low;
    LowTwo(v);
    LowFour(v);
    LowSix(v);
  }

  function Sextet1(a: byte): (v: nat)
    ensures v < 64
  {
    ShrIs(a);
    Shr(a, 2)
  }

  function Sextet2(a: byte, b: byte): (v: nat)
    ensures v < 64
  {
    LowIs(a);
    ShrIs(b);
    Shl(Low(a, 2), 4) + Shr(b, 4)
  }

  function Sextet3(b: byte, c: byte): (v: nat)
    ensures v < 64
  {
    LowIs(b);
    ShrIs(c);
    Shl(Low(b, 4), 2) + Shr(c, 6)
  }

  function Sextet4(c: byte): (v: nat)
    ensures v < 64
  {
    LowIs(c);
    Low(c, 6)
  }

  lemma SextetsAre(a: byte, b: byte)
    ensures Sextet1(a) == a / 4 && Sextet4(a) == a % 64
    ensures Sextet2(a, b) == a % 4 * 16 + b / 16 && Sextet3(a, b) == a % 16 * 4 + b / 64
  {
    hide Low, Shr;
    LowIs(a);
    ShrIs(a);
    ShrIs(b);
  }

  /** The characters for `s`; a short last group is padded with zero bits, not with characters. */
  function Encode(s: seq<byte>): seq<byte>
    requires s != []
  {
    if |s| == 1 then [Symbol(Sextet1(s[0])), Symbol(Sextet2(s[0], 0))]
    else if |s| == 2 then [Symbol(Sextet1(s[0])), Symbol(Sextet2(s[0], s[1])), Symbol(Sextet3(s[1], 0))]
    else if |s| == 3 then Group(s)
    else Group(s) + Encode(s[3..])
  }

  function Group(s: seq<byte>): (g: seq<byte>)
    requires |s| >= 3
    ensures |g| == 4
  {
    [Symbol(Sextet1(s[0])), Symbol(Sextet2(s[0], s[1])), Symbol(Sextet3(s[1], s[2])), Symbol(Sextet4(s[2]))]
  }

  /** The value of character `i`; the terminator is not in the alphabet. */
  function At(src: seq<byte>, i: nat): (v: Option<nat>)
    ensures v.Some? ==> v.value < 64
  {
    if i < |src| then ValueOf(src[i]) else None
  }

  /** Are the first `n` characters in the alphabet? */
  predicate Readable(src: seq<byte>, n: nat) {
    forall i :: 0 <= i < n ==> At(src, i).Some?
  }

  function First(c1: nat, c2: nat): byte
    requires c1 < 64 && c2 < 64
  {
    ShrIs(c2);
    Shl(c1, 2) + Shr(c2, 4)
  }

  function Second(c2: nat, c3: nat): byte
    requires c2 < 64 && c3 < 64
  {
    LowIs(c2);
    ShrIs(c3);
    Shl(Low(c2, 4), 4) + Shr(c3, 2)
  }

  function Third(c3: nat, c4: nat): byte
    requires c3 < 64 && c4 < 64
  {
    LowIs(c3);
    Shl(Low(c3, 2), 6) + c4
  }

  lemma BytesAre(c: nat, d: nat)
    requires c < 64 && d < 64
    ensures First(c, d) == c * 4 + d / 16 && Second(c, d) == c % 16 * 16 + d / 4 && Third(c, d) == c % 4 * 64 + d
  {
    hide Low, Shr;
    LowIs(c);
    ShrIs(d);
  }

  /** The first `size` bytes that the C string `src` stands for. */
  function Decode(src: seq<byte>, size: nat): (r: Option<seq<byte>>)
    requires size > 0
    ensures r.Some? ==> |r.value| == size
    decreases size
  {
    var c1, c2 := At(src, 0), At(src, 1);
    if c1.None? || c2.None? then None
    else
      var d1 := First(c1.value, c2.value);
      if size == 1 then Some([d1])
      else
        var c3 := At(src, 2);
        if c3.None? then None
        else
          var d2 := Second(c2.value, c3.value);
          if size == 2 then Some([d1, d2])
          else
            var c4 := At(src, 3);
            if c4.None? then None
            else
              var group := [d1, d2, Third(c3.value, c4.value)];
              if size == 3 then Some(group)
              else
                var rest := Decode(src[4..], size - 3);
                if rest.None? then None else Some(group + rest.value)
  }

  /** The number of characters for `n` bytes: six bits each, the last one filled up. */
  function Length(n: nat): nat {
    (4 * n + 2) / 3
  }

  lemma {:induction false} EncodedLength(s: seq<byte>)
    requires s != []
    ensures |Encode(s)| == Length(|s|)
  {
    hide Symbol;
    if |s| > 3 {
      EncodedLength(s[3..]);
      LengthNext(|s|);
    }
  }

  lemma LengthNext(n: nat)
    requires n > 3
    ensures Length(n) == 4 + Length(n - 3)
  {
  }

  /** Characters behind those that are needed do not matter. */
  lemma {:induction false} DecodeIgnoresRest(src: seq<byte>, rest: seq<byte>, size: nat)
    requires size > 0 && Readable(src, Length(size))
    ensures Decode(src + rest, size) == Decode(src, size)
    decreases size
  {
    hide ValueOf, First, Second, Third, Length, At;
    NeededFirst(size);
    forall i: nat | i < 4 && i < Length(size)
      ensures At(src + rest, i) == At(src, i)
    {
      AtFront(src, rest, i);
    }
    if size > 3 {
      ReadableRest(src, size);
      assert At(src, 3).Some?;
      AtFront(src, rest, 3);
      DecodeIgnoresRest(src[4..], rest, size - 3);
      assert (src + rest)[4..] == src[4..] + rest;
    }
  }

  lemma NeededFirst(size: nat)
    requires size > 0
    ensures Length(size) >= if size < 3 then size + 1 else 4
  {
  }

  lemma AtFront(src: seq<byte>, rest: seq<byte>, i: nat)
    requires At(src, i).Some?
    ensures i < |src| && At(src + rest, i) == At(src, i)
  {
  }

  lemma GroupBytes(a: byte, b: byte, c: byte)
    ensures First(Sextet1(a), Sextet2(a, b)) == a
    ensures Second(Sextet2(a, b), Sextet3(b, c)) == b
    ensures Third(Sextet3(b, c), Sextet4(c)) == c
  {
    hide First, Second, Third, Sextet1, Sextet2, Sextet3, Sextet4;
    SextetsAre(a, b);
    SextetsAre(b, c);
    SextetsAre(c, 0);
    BytesAre(Sextet1(a), Sextet2(a, b));
    BytesAre(Sextet2(a, b), Sextet3(b, c));
    BytesAre(Sextet3(b, c), Sextet4(c));
  }

  lemma GroupDecodes(s: seq<byte>, src: seq<byte>)
    requires |s| >= 3 && Group(s) <= src
    ensures Decode(src, 3) == Some(s[..3])
  {
    hide Symbol, ValueOf, First, Second, Third, Sextet1, Sextet2, Sextet3, Sextet4;
    GroupBytes(s[0], s[1], s[2]);
    SymbolValue(Sextet1(s[0]));
    SymbolValue(Sextet2(s[0], s[1]));
    SymbolValue(Sextet3(s[1], s[2]));
    SymbolValue(Sextet4(s[2]));
    assert src[0] == Group(s)[0] && src[1] == Group(s)[1] && src[2] == Group(s)[2] && src[3] == Group(s)[3];
    assert s[..3] == [s[0], s[1], s[2]];
  }

  lemma OneDecodes(a: byte, src: seq<byte>)
    requires |src| >= 2 && src[0] == Symbol(Sextet1(a)) && src[1] == Symbol(Sextet2(a, 0))
    ensures Decode(src, 1) == Some([a])
  {
    hide Symbol, ValueOf, First, Second, Third, Sextet1, Sextet2, Sextet3, Sextet4;
    GroupBytes(a, 0, 0);
    SymbolValue(Sextet1(a));
    SymbolValue(Sextet2(a, 0));
  }

  lemma TwoDecode(a: byte, b: byte, src: seq<byte>)
    requires |src| >= 3
    requires src[0] == Symbol(Sextet1(a)) && src[1] == Symbol(Sextet2(a, b)) && src[2] == Symbol(Sextet3(b, 0))
    ensures Decode(src, 2) == Some([a, b])
  {
    hide Symbol, ValueOf, First, Second, Third, Sextet1, Sextet2, Sextet3, Sextet4;
    GroupBytes(a, b, 0);
    SymbolValue(Sextet1(a));
    SymbolValue(Sextet2(a, b));
    SymbolValue(Sextet3(b, 0));
  }

  lemma DecodeSplits(src: seq<byte>, size: nat)
    requires size > 3 && Readable(src, 4)
    ensures |src| >= 4 && Decode(src, 3).Some?
    ensures Decode(src, size)
         == var rest := Decode(src[4..], size - 3);
            if rest.None? then None else Some(Decode(src, 3).value + rest.value)
  {
  }

  /** BF_decode undoes BF_encode for every size, whatever follows. */
  lemma {:induction false} DecodeUndoesEncode(s: seq<byte>, tail: seq<byte>)
    requires s != []
    ensures Decode(Encode(s) + tail, |s|) == Some(s)
    decreases |s|
  {
    hide Decode, Group, Symbol, Sextet1, Sextet2, Sextet3;
    var src := Encode(s) + tail;
    if |s| == 1 {
      OneDecodes(s[0], src);
      assert s == [s[0]];
    } else if |s| == 2 {
      TwoDecode(s[0], s[1], src);
      assert s == [s[0], s[1]];
    } else if |s| == 3 {
      GroupDecodes(s, src);
      assert s[..3] == s;
    } else {
      DecodeUndoesEncode(s[3..], tail);
      GroupDecodes(s, src);
      DecodesIff(src, 3);
      LengthsOfOne();
      DecodeSplits(src, |s|);
      assert src[4..] == Encode(s[3..]) + tail;
      assert s == s[..3] + s[3..];
    }
  }

  /** The six bits of a last character that carry data: two for one byte over, four for two. */
  function Used(v: nat, size: nat): (u: nat)
    requires v < 64
    ensures u < 64
  {
    if size % 3 == 1 then v / 16 * 16 else if size % 3 == 2 then v / 4 * 4 else v
  }

  /** `src` cut to the characters for `size` bytes, the unused bits of the last one cleared. */
  function Canonical(src: seq<byte>, size: nat): seq<byte>
    requires size > 0 && At(src, Length(size) - 1).Some?
  {
    var n := Length(size);
    src[..n - 1] + [Symbol(Used(At(src, n - 1).value, size))]
  }

  lemma GroupValues(c1: nat, c2: nat, c3: nat, c4: nat)
    requires c1 < 64 && c2 < 64 && c3 < 64 && c4 < 64
    ensures Sextet1(First(c1, c2)) == c1 && Sextet2(First(c1, c2), 0) == Used(c2, 1)
    ensures Sextet2(First(c1, c2), Second(c2, c3)) == c2 && Sextet3(Second(c2, c3), 0) == Used(c3, 2)
    ensures Sextet3(Second(c2, c3), Third(c3, c4)) == c3
    ensures Sextet4(Third(c3, c4)) == c4 == Used(c4, 3)
  {
    hide First, Second, Third, Sextet1, Sextet2, Sextet3, Sextet4;
    BytesAre(c1, c2);
    BytesAre(c2, c3);
    BytesAre(c3, c4);
    SextetsAre(First(c1, c2), 0);
    SextetsAre(First(c1, c2), Second(c2, c3));
    SextetsAre(Second(c2, c3), 0);
    SextetsAre(Second(c2, c3), Third(c3, c4));
    SextetsAre(Third(c3, c4), 0);
  }

  /** A string decodes iff each of the characters it needs is in the alphabet. */
  lemma {:induction false} DecodesIff(src: seq<byte>, size: nat)
    requires size > 0
    ensures Decode(src, size).Some? <==> Readable(src, Length(size))
    decreases size
  {
    hide ValueOf, First, Second, Third;
    if size <= 3 {
      assert Length(1) == 2 && Length(2) == 3 && Length(3) == 4;
    } else if Readable(src, 4) {
      assert At(src, 3).Some?;
      DecodesIff(src[4..], size - 3);
      LengthNext(size);
      AtShift(src, Length(size));
    } else {
      assert Length(size) >= 4 by { LengthNext(size); }
    }
  }

  lemma AtShift(src: seq<byte>, n: nat)
    requires |src| >= 4 && n >= 4 && Readable(src, 4)
    ensures Readable(src, n) <==> Readable(src[4..], n - 4)
  {
    hide ValueOf;
    forall i | 0 <= i
      ensures At(src[4..], i) == At(src, i + 4)
    {
    }
    if Readable(src[4..], n - 4) {
      forall i | 0 <= i < n
        ensures At(src, i).Some?
      {
        if i >= 4 {
          assert At(src[4..], i - 4) == At(src, i);
        }
      }
    }
  }

  /** Encoding what was decoded gives the string back with the unused bits cleared. */
  lemma {:induction false} EncodeUndoesDecode(src: seq<byte>, size: nat)
    requires size > 0 && Readable(src, Length(size))
    ensures Decode(src, size).Some? && At(src, Length(size) - 1).Some?
    ensures Encode(Decode(src, size).value) == Canonical(src, size)
    decreases size
  {
    hide ValueOf, Symbol, Used, Encode, Decode, Length;
    DecodesIff(src, size);
    LengthsOfOne();
    if size < 3 {
      ShortGroup(src, size);
    } else if size == 3 {
      FullGroup(src);
      UsedAll(src);
    } else {
      ReadableRest(src, size);
      DecodeSplits(src, size);
      EncodeUndoesDecode(src[4..], size - 3);
      FullGroup(src);
      var first, rest := Decode(src, 3).value, Decode(src[4..], size - 3).value;
      EncodeSplits(first, rest);
      CanonicalNext(src, size);
    }
  }

  lemma ReadableRest(src: seq<byte>, size: nat)
    requires size > 3 && Readable(src, Length(size))
    ensures Readable(src, 4) && |src| >= 4 && Readable(src[4..], Length(size - 3))
    ensures At(src, Length(size) - 1).Some?
  {
    hide ValueOf;
    LengthNext(size);
    assert At(src, 3).Some?;
    AtShift(src, Length(size));
  }

  lemma CanonicalNext(src: seq<byte>, size: nat)
    requires size > 3 && At(src, Length(size) - 1).Some?
    ensures Length(size - 3) > 0 && At(src[4..], Length(size - 3) - 1).Some?
    ensures Canonical(src, size) == src[..4] + Canonical(src[4..], size - 3)
  {
  }

  lemma LengthsOfOne()
    ensures Length(1) == 2 && Length(2) == 3 && Length(3) == 4
  {
  }

  lemma EncodeSplits(first: seq<byte>, rest: seq<byte>)
    requires |first| == 3 && rest != []
    ensures Encode(first + rest) == Encode(first) + Encode(rest)
  {
  }

  lemma UsedAll(src: seq<byte>)
    requires |src| >= 4 && At(src, 3).Some?
    ensures Canonical(src, 3) == src[..4]
  {
  }

  lemma ShortGroup(src: seq<byte>, size: nat)
    requires 1 <= size < 3 && Readable(src, size + 1)
    ensures Decode(src, size).Some? && At(src, Length(size) - 1).Some?
    ensures Encode(Decode(src, size).value) == Canonical(src, size)
  {
    hide ValueOf, Symbol, First, Second, Third, Sextet1, Sextet2, Sextet3, Sextet4, Used;
    var c1, c2 := At(src, 0).value, At(src, 1).value;
    var c3 := if size > 1 then At(src, 2).value else 0;
    GroupValues(c1, c2, c3, 0);
    ValueSymbol(src[0]);
    var d := Decode(src, size).value;
    if size == 1 {
      assert Encode(d) == [src[0], Symbol(Used(c2, 1))];
    } else {
      ValueSymbol(src[1]);
      assert Encode(d) == [src[0], src[1], Symbol(Used(c3, 2))];
    }
  }

  lemma DecodedThree(src: seq<byte>)
    requires Readable(src, 4)
    ensures At(src, 0).Some? && At(src, 1).Some? && At(src, 2).Some? && At(src, 3).Some?
    ensures Decode(src, 3).Some?
    ensures Decode(src, 3).value
         == [First(At(src, 0).value, At(src, 1).value), Second(At(src, 1).value, At(src, 2).value),
             Third(At(src, 2).value, At(src, 3).value)]
  {
  }

  lemma FullSymbols(c1: nat, c2: nat, c3: nat, c4: nat)
    requires c1 < 64 && c2 < 64 && c3 < 64 && c4 < 64
    ensures Encode([First(c1, c2), Second(c2, c3), Third(c3, c4)]) == [Symbol(c1), Symbol(c2), Symbol(c3), Symbol(c4)]
  {
    hide Symbol, First, Second, Third, Sextet1, Sextet2, Sextet3, Sextet4, Used;
    GroupValues(c1, c2, c3, c4);
  }

  lemma FullGroup(src: seq<byte>)
    requires Readable(src, 4)
    ensures |src| >= 4 && Decode(src, 3).Some? && Encode(Decode(src, 3).value) == src[..4]
  {
    hide At, Symbol, First, Second, Third, Encode, Decode;
    DecodedThree(src);
    FullSymbols(At(src, 0).value, At(src, 1).value, At(src, 2).value, At(src, 3).value);
    AtSymbol(src, 0);
    AtSymbol(src, 1);
    AtSymbol(src, 2);
    AtSymbol(src, 3);
  }

  lemma AtSymbol(src: seq<byte>, i: nat)
    requires At(src, i).Some?
    ensures i < |src| && Symbol(At(src, i).value) == src[i]
  {
  }

  // --- what the characters spell ---

  /** The `n` low bits of `v`, most significant first. */
  function Bits(v: nat, n: nat): (b: seq<bool>)
    ensures |b| == n
  {
    if n == 0 then [] else Bits(v / 2, n - 1) + [v % 2 == 1]
  }

  /** Eight bits a byte. */
  function ByteBits(s: seq<byte>): seq<bool> {
    if s == [] then [] else Bits(s[0], 8) + ByteBits(s[1..])
  }

  /** Six bits a character of the alphabet. */
  function CharBits(e: seq<byte>): seq<bool> {
    if e == [] then [] else Bits(CharValue(e[0]), 6) + CharBits(e[1..])
  }

  function CharValue(c: byte): nat {
    if ValueOf(c).Some? then ValueOf(c).value else 0
  }

  lemma {:induction false} SplitBits(x: nat, y: nat, n: nat, k: nat)
    requires y < Pow2(k)
    ensures Bits(x * Pow2(k) + y, n + k) == Bits(x, n) + Bits(y, k)
    decreases k
  {
    if k > 0 {
      PowNext(x, y, k);
      SplitBits(x, y / 2, n, k - 1);
      Halve(x * Pow2(k - 1), y);
    } else {
      assert Pow2(0) == 1;
    }
  }

  lemma PowNext(x: nat, y: nat, k: nat)
    requires k > 0 && y < Pow2(k)
    ensures x * Pow2(k) == 2 * (x * Pow2(k - 1)) && y / 2 < Pow2(k - 1)
  {
  }

  lemma Halve(z: nat, y: nat)
    ensures (2 * z + y) / 2 == z + y / 2 && (2 * z + y) % 2 == y % 2
  {
  }

  lemma Powers()
    ensures Pow2(2) == 4 && Pow2(4) == 16 && Pow2(6) == 64
  {
    assert Pow2(4) == 16;
  }

  lemma BitsOfFirst(a: byte)
    ensures Bits(a, 8) == Bits(Sextet1(a), 6) + Bits(a % 4, 2)
  {
    hide Bits, Pow2;
    Powers();
    SextetsAre(a, 0);
    SplitBits(a / 4, a % 4, 6, 2);
  }

  lemma BitsOfSecond(b: byte)
    ensures Bits(b, 8) == Bits(b / 16, 4) + Bits(b % 16, 4)
  {
    hide Bits, Pow2;
    Powers();
    SplitBits(b / 16, b % 16, 4, 4);
  }

  lemma BitsOfThird(c: byte)
    ensures Bits(c, 8) == Bits(c / 64, 2) + Bits(Sextet4(c), 6)
  {
    hide Bits, Pow2;
    Powers();
    SextetsAre(c, 0);
    SplitBits(c / 64, c % 64, 2, 6);
  }

  lemma BitsBetween(a: byte, b: byte)
    ensures Bits(Sextet2(a, b), 6) == Bits(a % 4, 2) + Bits(b / 16, 4)
    ensures Bits(Sextet3(a, b), 6) == Bits(a % 16, 4) + Bits(b / 64, 2)
  {
    hide Bits, Pow2;
    Powers();
    SextetsAre(a, b);
    SplitBits(a % 4, b / 16, 2, 4);
    SplitBits(a % 16, b / 64, 4, 2);
  }

  /** The four sextets of a group are its three bytes. */
  lemma GroupBits(a: byte, b: byte, c: byte)
    ensures Bits(Sextet1(a), 6) + Bits(Sextet2(a, b), 6) + (Bits(Sextet3(b, c), 6) + Bits(Sextet4(c), 6))
         == Bits(a, 8) + Bits(b, 8) + Bits(c, 8)
  {
    hide Bits, Sextet1, Sextet2, Sextet3, Sextet4;
    BitsOfFirst(a);
    BitsOfSecond(b);
    BitsOfThird(c);
    BitsBetween(a, b);
    BitsBetween(b, c);
    Regroup(Bits(Sextet1(a), 6), Bits(a % 4, 2), Bits(b / 16, 4), Bits(b % 16, 4), Bits(c / 64, 2),
      Bits(Sextet4(c), 6));
  }

  lemma Regroup(u: seq<bool>, v: seq<bool>, w: seq<bool>, x: seq<bool>, y: seq<bool>, z: seq<bool>)
    ensures u + (v + w) + (x + y + z) == u + v + (w + x) + (y + z)
  {
  }

  /** Zero bits that fill up the last character. */
  function Padding(size: nat): seq<bool> {
    if size % 3 == 1 then Bits(0, 4) else if size % 3 == 2 then Bits(0, 2) else []
  }

  lemma CharBitsOne(v: nat)
    requires v < 64
    ensures CharBits([Symbol(v)]) == Bits(v, 6)
  {
    hide Symbol, ValueOf, Bits;
    SymbolValue(v);
    assert [Symbol(v)][1..] == [];
  }

  lemma Assoc(u: seq<bool>, v: seq<bool>, w: seq<bool>)
    ensures u + v + w == u + (v + w)
  {
  }

  lemma CharBitsNone()
    ensures CharBits([]) == []
  {
  }

  lemma CharBitsNext(e: seq<byte>)
    requires e != []
    ensures CharBits(e) == Bits(CharValue(e[0]), 6) + CharBits(e[1..])
  {
  }

  lemma {:induction false} CharBitsSplit(e: seq<byte>, f: seq<byte>)
    ensures CharBits(e + f) == CharBits(e) + CharBits(f)
  {
    hide CharBits, CharValue, Bits;
    if e == [] {
      CharBitsNone();
      assert e + f == f;
    } else {
      CharBitsSplit(e[1..], f);
      assert (e + f)[1..] == e[1..] + f;
      CharBitsNext(e);
      CharBitsNext(e + f);
      Assoc(Bits(CharValue(e[0]), 6), CharBits(e[1..]), CharBits(f));
    }
  }

  lemma CharBitsTwo(v1: nat, v2: nat)
    requires v1 < 64 && v2 < 64
    ensures CharBits([Symbol(v1), Symbol(v2)]) == Bits(v1, 6) + Bits(v2, 6)
  {
    hide Symbol, Bits, CharBits;
    CharBitsOne(v1);
    CharBitsOne(v2);
    CharBitsSplit([Symbol(v1)], [Symbol(v2)]);
    assert [Symbol(v1), Symbol(v2)] == [Symbol(v1)] + [Symbol(v2)];
  }

  lemma CharBitsThree(v1: nat, v2: nat, v3: nat)
    requires v1 < 64 && v2 < 64 && v3 < 64
    ensures CharBits([Symbol(v1), Symbol(v2), Symbol(v3)]) == Bits(v1, 6) + Bits(v2, 6) + Bits(v3, 6)
  {
    hide Symbol, Bits, CharBits;
    CharBitsTwo(v1, v2);
    CharBitsOne(v3);
    CharBitsSplit([Symbol(v1), Symbol(v2)], [Symbol(v3)]);
    assert [Symbol(v1), Symbol(v2), Symbol(v3)] == [Symbol(v1), Symbol(v2)] + [Symbol(v3)];
  }

  lemma ByteBitsOne(a: byte)
    ensures ByteBits([a]) == Bits(a, 8)
  {
  }

  lemma ByteBitsTwo(a: byte, b: byte)
    ensures ByteBits([a, b]) == Bits(a, 8) + Bits(b, 8)
  {
    hide Bits, ByteBits;
    ByteBitsOne(a);
    ByteBitsOne(b);
    ByteBitsSplit([a], [b]);
    assert [a, b] == [a] + [b];
  }

  lemma ByteBitsThree(a: byte, b: byte, c: byte)
    ensures ByteBits([a, b, c]) == Bits(a, 8) + Bits(b, 8) + Bits(c, 8)
  {
    hide Bits, ByteBits;
    ByteBitsTwo(a, b);
    ByteBitsOne(c);
    ByteBitsSplit([a, b], [c]);
    assert [a, b, c] == [a, b] + [c];
  }

  lemma GroupSpells(s: seq<byte>)
    requires |s| >= 3
    ensures CharBits(Group(s)) == ByteBits(s[..3])
  {
    hide Symbol, ValueOf, Bits, ByteBits, Sextet1, Sextet2, Sextet3, Sextet4, CharBits;
    var v1, v2, v3, v4 := Sextet1(s[0]), Sextet2(s[0], s[1]), Sextet3(s[1], s[2]), Sextet4(s[2]);
    CharBitsTwo(v1, v2);
    CharBitsTwo(v3, v4);
    CharBitsSplit([Symbol(v1), Symbol(v2)], [Symbol(v3), Symbol(v4)]);
    assert Group(s) == [Symbol(v1), Symbol(v2)] + [Symbol(v3), Symbol(v4)];
    GroupBits(s[0], s[1], s[2]);
    ByteBitsThree(s[0], s[1], s[2]);
    assert s[..3] == [s[0], s[1], s[2]];
  }

  lemma PaddingNext(size: nat)
    requires size >= 3
    ensures Padding(size) == if size == 3 then [] else Padding(size - 3)
  {
  }

  /** The characters, six bits each, spell the bytes, eight bits each, filled up with zero bits. */
  lemma {:induction false} EncodeSpells(s: seq<byte>)
    requires s != []
    ensures CharBits(Encode(s)) == ByteBits(s) + Padding(|s|)
  {
    hide Symbol, Bits, Sextet1, Sextet2, Sextet3, Group, CharBits, ByteBits, Padding;
    if |s| == 1 {
      OneSpells(s[0]);
      assert s == [s[0]];
    } else if |s| == 2 {
      TwoSpell(s[0], s[1]);
      assert s == [s[0], s[1]];
    } else {
      GroupSpells(s);
      PaddingNext(|s|);
      if |s| == 3 {
        assert s[..3] == s;
      } else {
        EncodeSpells(s[3..]);
        CharBitsSplit(Group(s), Encode(s[3..]));
        ByteBitsSplit(s[..3], s[3..]);
        assert s == s[..3] + s[3..];
      }
    }
  }

  lemma ByteBitsNext(s: seq<byte>)
    requires s != []
    ensures ByteBits(s) == Bits(s[0], 8) + ByteBits(s[1..])
  {
  }

  lemma {:induction false} ByteBitsSplit(s: seq<byte>, t: seq<byte>)
    ensures ByteBits(s + t) == ByteBits(s) + ByteBits(t)
  {
    if s == [] {
      assert s + t == t;
    } else {
      hide ByteBits, Bits;
      ByteBitsSplit(s[1..], t);
      assert (s + t)[1..] == s[1..] + t;
      ByteBitsNext(s);
      ByteBitsNext(s + t);
      Assoc(Bits(s[0], 8), ByteBits(s[1..]), ByteBits(t));
    }
  }

  lemma OneSpells(a: byte)
    ensures CharBits([Symbol(Sextet1(a)), Symbol(Sextet2(a, 0))]) == ByteBits([a]) + Padding(1)
  {
    hide Symbol, Bits, ByteBits, Sextet1, Sextet2, CharBits;
    CharBitsTwo(Sextet1(a), Sextet2(a, 0));
    BitsOfFirst(a);
    BitsBetween(a, 0);
    ByteBitsOne(a);
  }

  lemma TwoSpell(a: byte, b: byte)
    ensures CharBits([Symbol(Sextet1(a)), Symbol(Sextet2(a, b)), Symbol(Sextet3(b, 0))])
         == ByteBits([a, b]) + Padding(2)
  {
    hide Symbol, Bits, ByteBits, Sextet1, Sextet2, Sextet3, CharBits;
    CharBitsThree(Sextet1(a), Sextet2(a, b), Sextet3(b, 0));
    BitsOfFirst(a);
    BitsOfSecond(b);
    BitsBetween(a, b);
    BitsBetween(b, 0);
    ByteBitsTwo(a, b);
    Regroup(Bits(Sextet1(a), 6), Bits(a % 4, 2), Bits(b / 16, 4), Bits(b % 16, 4), Padding(2), []);
  }

  // --- the code ---

  /** One pass of the loop of BF_encode: the group at the front of `src`. */
  method EncodeGroup(dst: array<byte>, at: nat, src: seq<byte>) returns (read: nat, written: nat)
    requires src != [] && at + |Encode(src)| <= dst.Length
    modifies dst
    ensures read == Min(3, |src|) && 2 <= written <= |Encode(src)|
    ensures dst[..] == old(dst[..at]) + Encode(src)[..written] + old(dst[at + written..])
    ensures |src| <= 3 ==> written == |Encode(src)|
    ensures |src| > 3 ==> written == 4 && Encode(src)[4..] == Encode(src[3..])
  {
    hide Symbol, Sextet1, Sextet2, Sextet3, Sextet4, Encode;
    Unfold(src);
    dst[at] := Symbol(Sextet1(src[0]));
    if |src| == 1 {
      dst[at + 1] := Symbol(Sextet2(src[0], 0));
      return 1, 2;
    }
    dst[at + 1] := Symbol(Sextet2(src[0], src[1]));
    if |src| == 2 {
      dst[at + 2] := Symbol(Sextet3(src[1], 0));
      return 2, 3;
    }
    dst[at + 2] := Symbol(Sextet3(src[1], src[2]));
    dst[at + 3] := Symbol(Sextet4(src[2]));
    return 3, 4;
  }

  /** BF_encode: the characters for `src` go to `dst` from `at` on. */
  method BFEncode(dst: array<byte>, at: nat, src: seq<byte>)
    requires src != [] && at + Length(|src|) <= dst.Length
    modifies dst
    ensures dst[..] == old(dst[..at]) + Encode(src) + old(dst[at + Length(|src|)..])
  {
    hide Encode, Length, Written;
    EncodedLength(src);
    ghost var e, left, right := Encode(src), dst[..at], dst[at..];
    NothingWritten(left, e, right, dst[..]);
    assert right[|e|..] == dst[at + |e|..];
    var sptr, dptr := 0, 0;
    assert src[0..] == src && e[0..] == e;
    while true
      invariant 0 <= sptr < |src| && 0 <= dptr <= |e|
      invariant e[dptr..] == Encode(src[sptr..])
      invariant Written(left, e, dptr, right, dst[..])
      decreases |src| - sptr
    {
      ghost var before := dst[..];
      WrittenLength(left, e, dptr, right, before);
      var read, written := EncodeGroup(dst, at + dptr, src[sptr..]);
      MoreWritten(left, e, dptr, written, right, before, dst[..]);
      if sptr + read >= |src| {
        dptr := dptr + written;
        break;
      }
      Suffixes(src, sptr, e, dptr);
      sptr, dptr := sptr + read, dptr + written;
    }
    AllWritten(left, e, right, dst[..]);
  }

  /** Have the first `n` characters of `e` replaced the start of `right`? */
  ghost predicate Written(left: seq<byte>, e: seq<byte>, n: nat, right: seq<byte>, now: seq<byte>)
    requires n <= |e| <= |right|
  {
    now == left + e[..n] + right[n..]
  }

  lemma WrittenLength(left: seq<byte>, e: seq<byte>, n: nat, right: seq<byte>, now: seq<byte>)
    requires n <= |e| <= |right| && Written(left, e, n, right, now)
    ensures |now| == |left| + |right|
  {
  }

  lemma Suffixes(src: seq<byte>, sptr: nat, e: seq<byte>, dptr: nat)
    requires sptr + 3 <= |src| && dptr + 4 <= |e|
    ensures src[sptr..][3..] == src[sptr + 3..] && e[dptr..][4..] == e[dptr + 4..]
  {
  }

  lemma NothingWritten(left: seq<byte>, e: seq<byte>, right: seq<byte>, now: seq<byte>)
    requires |e| <= |right| && now == left + right
    ensures Written(left, e, 0, right, now)
  {
  }

  lemma AllWritten(left: seq<byte>, e: seq<byte>, right: seq<byte>, now: seq<byte>)
    requires |e| <= |right| && Written(left, e, |e|, right, now)
    ensures now == left + e + right[|e|..]
  {
  }

  lemma MoreWritten(left: seq<byte>, e: seq<byte>, n: nat, m: nat, right: seq<byte>, before: seq<byte>,
                    now: seq<byte>)
    requires n + m <= |e| <= |right| && Written(left, e, n, right, before)
    requires now == before[..|left| + n] + e[n..][..m] + before[|left| + n + m..]
    ensures Written(left, e, n + m, right, now)
  {
    assert before[..|left| + n] == left + e[..n];
    assert before[|left| + n + m..] == right[n + m..];
    assert e[..n + m] == e[..n] + e[n..][..m];
  }

  /** What one pass of the loop writes. */
  lemma Unfold(s: seq<byte>)
    requires s != []
    ensures |Encode(s)| >= 2 && Encode(s)[0] == Symbol(Sextet1(s[0]))
    ensures |s| == 1 ==> |Encode(s)| == 2 && Encode(s)[1] == Symbol(Sextet2(s[0], 0))
    ensures |s| >= 2 ==> |Encode(s)| >= 3 && Encode(s)[1] == Symbol(Sextet2(s[0], s[1]))
    ensures |s| == 2 ==> |Encode(s)| == 3 && Encode(s)[2] == Symbol(Sextet3(s[1], 0))
    ensures |s| >= 3 ==> |Encode(s)| >= 4 && Encode(s)[2] == Symbol(Sextet3(s[1], s[2]))
    ensures |s| >= 3 ==> Encode(s)[3] == Symbol(Sextet4(s[2]))
    ensures |s| == 3 ==> |Encode(s)| == 4
    ensures |s| > 3 ==> Encode(s)[4..] == Encode(s[3..])
  {
  }

  /** One character of a C string, whose terminator no pass reads beyond. */
  method ReadValue(src: seq<byte>, sptr: nat) returns (v: Option<nat>)
    requires sptr <= |src|
    ensures v == At(src, sptr)
    ensures v.Some? ==> sptr < |src|
  {
    var c := if sptr < |src| then src[sptr] else 0;
    v := ValueOf(c);
  }

  /** One pass of the loop of BF_decode: up to three bytes, with `rc` -1 when a character is refused. */
  method DecodeGroup(dst: array<byte>, dptr: nat, src: seq<byte>, size: nat) returns (rc: int, written: nat)
    requires size > 0 && dptr + size <= dst.Length
    modifies dst
    ensures rc == 0 || rc == -1
    ensures dst[..dptr] == old(dst[..dptr]) && dst[dptr + size..] == old(dst[dptr + size..])
    ensures rc == 0 <==> Decode(src, Min(3, size)).Some?
    ensures rc == 0 ==> written == Min(3, size) && dst[dptr..dptr + written] == Decode(src, written).value
  {
    hide ValueOf, First, Second, Third;
    rc, written := -1, 0;
    var c1 := ReadValue(src, 0);
    if c1.None? {
      return;
    }
    var c2 := ReadValue(src, 1);
    if c2.None? {
      return;
    }
    dst[dptr] := First(c1.value, c2.value);
    if size == 1 {
      return 0, 1;
    }
    var c3 := ReadValue(src, 2);
    if c3.None? {
      return;
    }
    dst[dptr + 1] := Second(c2.value, c3.value);
    if size == 2 {
      return 0, 2;
    }
    var c4 := ReadValue(src, 3);
    if c4.None? {
      return;
    }
    dst[dptr + 2] := Third(c3.value, c4.value);
    return 0, 3;
  }

  /** BF_decode on a C string. */
  method BFDecode(dst: array<byte>, src: seq<byte>, size: nat) returns (rc: int)
    requires 1 <= size <= dst.Length
    modifies dst
    ensures rc == if Decode(src, size).Some? then 0 else -1
    ensures rc == 0 ==> dst[..size] == Decode(src, size).value
    ensures dst[size..] == old(dst[size..])
  {
    hide Decode, Prepend;
    var sptr, dptr := 0, 0;
    ghost var whole := Decode(src, size);
    PrependNothing(whole);
    assert src[0..] == src && dst[..0] == [];
    while true
      invariant 0 <= sptr <= |src| && 0 <= dptr < size
      invariant whole == Prepend(dst[..dptr], Decode(src[sptr..], size - dptr))
      invariant dst[size..] == old(dst[size..])
      decreases size - dptr
    {
      ghost var done := dst[..dptr];
      var left := size - dptr;
      DecodeStep(src[sptr..], left);
      var written;
      rc, written := DecodeGroup(dst, dptr, src[sptr..], left);
      if rc != 0 {
        PrependNone(done);
        return;
      }
      ghost var piece := dst[dptr..dptr + written];
      assert dst[..dptr + written] == done + piece;
      if written == left {
        PrependSome(done, piece);
        break;
      }
      PrependTwice(done, piece, Decode(src[sptr..][4..], left - 3));
      dptr := dptr + written;
      assert src[sptr..][4..] == src[sptr + 4..];
      sptr := sptr + 4;
    }
  }

  ghost function Prepend(s: seq<byte>, r: Option<seq<byte>>): Option<seq<byte>> {
    if r.None? then None else Some(s + r.value)
  }

  lemma PrependNothing(r: Option<seq<byte>>)
    ensures Prepend([], r) == r
  {
    if r.Some? {
      assert [] + r.value == r.value;
    }
  }

  lemma PrependSome(s: seq<byte>, t: seq<byte>)
    ensures Prepend(s, Some(t)) == Some(s + t)
  {
  }

  lemma PrependNone(s: seq<byte>)
    ensures Prepend(s, None) == None
  {
  }

  lemma PrependTwice(s: seq<byte>, t: seq<byte>, r: Option<seq<byte>>)
    ensures Prepend(s, Prepend(t, r)) == Prepend(s + t, r)
  {
    if r.Some? {
      assert s + (t + r.value) == s + t + r.value;
    }
  }

  lemma DecodeStep(src: seq<byte>, size: nat)
    requires size > 0
    ensures Decode(src, Min(3, size)).None? ==> Decode(src, size).None?
    ensures size > 3 && Decode(src, 3).Some?
        ==> |src| >= 4 && Decode(src, size) == Prepend(Decode(src, 3).value, Decode(src[4..], size - 3))
  {
    hide Decode, At, Length;
    if size > 3 {
      DecodesIff(src, 3);
      DecodesIff(src, size);
      LengthsOfOne();
      if Readable(src, 4) {
        DecodeSplits(src, size);
      } else if Readable(src, Length(size)) {
        ReadableRest(src, size);
      }
    }
  }
}

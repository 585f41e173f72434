/**
  The UTF-8 codec of src/bas/locale/unicode.c: utf8_decode_code_point and utf8_encode_code_point,
  against RFC 3629. A C int holding a code point is a bv32.
 */
module Utf8 {
  const MAX: bv32 := 0x10FFFF

  datatype Result = Eof | Malformed | CodePoint(cp: bv32)

  /** The return value, and what is stored in *bytes_consumed. */
  datatype Decoded = Decoded(result: Result, consumed: nat)

  predicate IsContinuation(b: bv8) {
    b & 0xC0 == 0x80
  }

  function Wide(b: bv8): bv32 {
    b as bv32
  }

  function Join2(b0: bv8, b1: bv8): bv32 {
    ((Wide(b0) & 0x1F) << 6) | (Wide(b1) & 0x3F)
  }

  function Join3(b0: bv8, b1: bv8, b2: bv8): bv32 {
    ((Wide(b0) & 0x0F) << 12) | ((Wide(b1) & 0x3F) << 6) | (Wide(b2) & 0x3F)
  }

  function Join4(b0: bv8, b1: bv8, b2: bv8, b3: bv8): bv32 {
    ((Wide(b0) & 0x07) << 18) | ((Wide(b1) & 0x3F) << 12) | ((Wide(b2) & 0x3F) << 6) | (Wide(b3) & 0x3F)
  }

  /** utf8_decode_code_point on the bytes from ptr to end. */
  function Decode(s: seq<bv8>): Decoded {
    if s == [] then Decoded(Eof, 0)
    else if s[0] < 0x80 then Decoded(CodePoint(Wide(s[0])), 1)
    else if s[0] & 0xE0 == 0xC0 then
      if |s| < 2 || !IsContinuation(s[1]) then Decoded(Malformed, 1)
      else Decoded(CodePoint(Join2(s[0], s[1])), 2)
    else if s[0] & 0xF0 == 0xE0 then
      if |s| < 3 || !IsContinuation(s[1]) || !IsContinuation(s[2]) then Decoded(Malformed, 1)
      else Decoded(CodePoint(Join3(s[0], s[1], s[2])), 3)
    else if s[0] & 0xF8 == 0xF0 then
      if |s| < 4 || !IsContinuation(s[1]) || !IsContinuation(s[2]) || !IsContinuation(s[3]) then Decoded(Malformed, 1)
      else Decoded(CodePoint(Join4(s[0], s[1], s[2], s[3])), 4)
    else Decoded(Malformed, 1)
  }

  /** (uint8_t)x */
  function Byte(x: bv32): bv8 {
    Narrow(x);
    (x & 0xFF) as bv8
  }

  lemma Narrow(x: bv32)
    ensures x & 0xFF <= 0xFF
  {
  }

  function Length(cp: bv32): nat {
    if cp < 0x80 then 1 else if cp < 0x800 then 2 else if cp < 0x1_0000 then 3 else 4
  }

  /** What utf8_encode_code_point writes. */
  function Encode(cp: bv32): (s: seq<bv8>)
    ensures |s| == Length(cp)
  {
    if cp < 0x80 then [Byte(cp)]
    else if cp < 0x800 then [Byte(0xC0 | (cp >> 6)), Byte(0x80 | (cp & 0x3F))]
    else if cp < 0x1_0000 then
      [Byte(0xE0 | (cp >> 12)), Byte(0x80 | ((cp >> 6) & 0x3F)), Byte(0x80 | (cp & 0x3F))]
    else
      [Byte(0xF0 | (cp >> 18)), Byte(0x80 | ((cp >> 12) & 0x3F)),
       Byte(0x80 | ((cp >> 6) & 0x3F)), Byte(0x80 | (cp & 0x3F))]
  }

  /** utf8_encode_code_point: `ok` for its 1, and *out_len. */
  method EncodeCodePoint(cp: bv32, out: array?<bv8>) returns (ok: bool, length: nat)
    requires out != null ==> out.Length >= 4
    modifies if out == null then {} else {out}
    ensures ok <==> out != null && cp <= MAX
    ensures ok ==> length == Length(cp) && out[..length] == Encode(cp) && out[length..] == old(out[length..])
    ensures !ok ==> length == 0 && (out != null ==> out[..] == old(out[..]))
  {
    if out == null || cp > MAX {
      return false, 0;
    }
    if cp < 0x80 {
      out[0] := Byte(cp);
      length := 1;
    } else if cp < 0x800 {
      out[0] := Byte(0xC0 | (cp >> 6));
      out[1] := Byte(0x80 | (cp & 0x3F));
      length := 2;
    } else if cp < 0x1_0000 {
      out[0] := Byte(0xE0 | (cp >> 12));
      out[1] := Byte(0x80 | ((cp >> 6) & 0x3F));
      out[2] := Byte(0x80 | (cp & 0x3F));
      length := 3;
    } else {
      out[0] := Byte(0xF0 | (cp >> 18));
      out[1] := Byte(0x80 | ((cp >> 12) & 0x3F));
      out[2] := Byte(0x80 | ((cp >> 6) & 0x3F));
      out[3] := Byte(0x80 | (cp & 0x3F));
      length := 4;
    }
    ok := true;
  }

  // ---------------------------------------------------------------------------
  // Bits
  // ---------------------------------------------------------------------------

  lemma Bits1(cp: bv32)
    requires cp < 0x80
    ensures var b := Byte(cp); b < 0x80 && Wide(b) == cp
  {
  }

  lemma Bits2(cp: bv32)
    requires 0x80 <= cp < 0x800
    ensures var b0, b1 := Byte(0xC0 | (cp >> 6)), Byte(0x80 | (cp & 0x3F));
      b0 >= 0x80 && b0 & 0xE0 == 0xC0 && IsContinuation(b1) && Join2(b0, b1) == cp
  {
  }

  lemma Bits3(cp: bv32)
    requires 0x800 <= cp < 0x1_0000
    ensures var b0, b1, b2 := Byte(0xE0 | (cp >> 12)), Byte(0x80 | ((cp >> 6) & 0x3F)), Byte(0x80 | (cp & 0x3F));
      && b0 >= 0x80 && b0 & 0xE0 != 0xC0 && b0 & 0xF0 == 0xE0 && IsContinuation(b1) && IsContinuation(b2)
      && Join3(b0, b1, b2) == cp
  {
  }

  lemma Bits4(cp: bv32)
    requires 0x1_0000 <= cp <= MAX
    ensures var b0, b1, b2, b3 :=
        Byte(0xF0 | (cp >> 18)), Byte(0x80 | ((cp >> 12) & 0x3F)),
        Byte(0x80 | ((cp >> 6) & 0x3F)), Byte(0x80 | (cp & 0x3F));
      && b0 >= 0x80 && b0 & 0xE0 != 0xC0 && b0 & 0xF0 != 0xE0 && b0 & 0xF8 == 0xF0
      && IsContinuation(b1) && IsContinuation(b2) && IsContinuation(b3) && Join4(b0, b1, b2, b3) == cp
  {
  }

  // ---------------------------------------------------------------------------
  // Round trip
  // ---------------------------------------------------------------------------

  /** Decoding an encoded code point gives it back, whatever follows. */
  lemma DecodeEncode(cp: bv32, rest: seq<bv8>)
    requires cp <= MAX
    ensures Decode(Encode(cp) + rest) == Decoded(CodePoint(cp), Length(cp))
  {
    hide Byte, Join2, Join3, Join4, Wide, IsContinuation;
    if cp < 0x80 {
      Bits1(cp);
    } else if cp < 0x800 {
      Bits2(cp);
    } else if cp < 0x1_0000 {
      Bits3(cp);
    } else {
      Bits4(cp);
    }
  }

  /** Any bytes at all: from 1 to 4 are consumed, none past the end, and one if they are malformed. */
  lemma DecodeAdvances(s: seq<bv8>)
    ensures var d := Decode(s);
      && d.consumed <= |s| && d.consumed <= 4 && (d.consumed == 0 <==> s == []) && (d.result.Eof? <==> s == [])
      && (d.result.Malformed? ==> d.consumed == 1)
  {
  }

  /** The results of decoding over and over until the end. */
  function DecodeAll(s: seq<bv8>): seq<Decoded>
    decreases |s|
  {
    DecodeAdvances(s);
    if s == [] then [] else [Decode(s)] + DecodeAll(s[Decode(s).consumed..])
  }

  function EncodeAll(cps: seq<bv32>): seq<bv8> {
    if cps == [] then [] else Encode(cps[0]) + EncodeAll(cps[1..])
  }

  predicate AllValid(cps: seq<bv32>) {
    forall i :: 0 <= i < |cps| ==> Valid(cps[i])
  }

  function Expected(cps: seq<bv32>): seq<Decoded> {
    seq(|cps|, i requires 0 <= i < |cps| => Decoded(CodePoint(cps[i]), Length(cps[i])))
  }

  /** Any code points up to 10FFFF come back from the concatenation of their encodings. */
  lemma {:induction false} StreamRoundTrip(cps: seq<bv32>)
    requires AllValid(cps)
    ensures DecodeAll(EncodeAll(cps)) == Expected(cps)
  {
    hide Decode, Encode;
    if cps != [] {
      var s, rest := EncodeAll(cps), EncodeAll(cps[1..]);
      DecodeEncode(cps[0], rest);
      assert s[Length(cps[0])..] == rest;
      StreamRoundTrip(cps[1..]);
      assert Expected(cps) == [Decoded(CodePoint(cps[0]), Length(cps[0]))] + Expected(cps[1..]);
    }
  }

  /** No encoding starts another one. */
  lemma PrefixFree(a: bv32, b: bv32)
    requires a <= MAX && b <= MAX && Encode(a) <= Encode(b)
    ensures a == b
  {
    hide Encode, Decode;
    DecodeEncode(a, Encode(b)[|Encode(a)|..]);
    DecodeEncode(b, []);
    assert Encode(a) + Encode(b)[|Encode(a)|..] == Encode(b) + [];
  }

  function Consumed(ds: seq<Decoded>): nat {
    if ds == [] then 0 else ds[0].consumed + Consumed(ds[1..])
  }

  /** Reading any bytes to the end steps over each of them once. */
  lemma {:induction false} ScanConserves(s: seq<bv8>)
    ensures Consumed(DecodeAll(s)) == |s|
    decreases |s|
  {
    hide Decode;
    DecodeAdvances(s);
    if s != [] {
      ScanConserves(s[Decode(s).consumed..]);
    }
  }

  // ---------------------------------------------------------------------------
  // The grammar of section 4 of RFC 3629
  // ---------------------------------------------------------------------------

  predicate Tail(b: bv8) {
    0x80 <= b <= 0xBF
  }

  /** UTF8-3 */
  predicate WellFormed3(b0: bv8, b1: bv8, b2: bv8) {
    || (b0 == 0xE0 && 0xA0 <= b1 <= 0xBF && Tail(b2))
    || (0xE1 <= b0 <= 0xEC && Tail(b1) && Tail(b2))
    || (b0 == 0xED && 0x80 <= b1 <= 0x9F && Tail(b2))
    || (0xEE <= b0 <= 0xEF && Tail(b1) && Tail(b2))
  }

  /** UTF8-4 */
  predicate WellFormed4(b0: bv8, b1: bv8, b2: bv8, b3: bv8) {
    || (b0 == 0xF0 && 0x90 <= b1 <= 0xBF && Tail(b2) && Tail(b3))
    || (0xF1 <= b0 <= 0xF3 && Tail(b1) && Tail(b2) && Tail(b3))
    || (b0 == 0xF4 && 0x80 <= b1 <= 0x8F && Tail(b2) && Tail(b3))
  }

  /** UTF8-char: one well-formed sequence. */
  predicate WellFormed(s: seq<bv8>) {
    match |s|
    case 1 => s[0] <= 0x7F
    case 2 => 0xC2 <= s[0] <= 0xDF && Tail(s[1])
    case 3 => WellFormed3(s[0], s[1], s[2])
    case 4 => WellFormed4(s[0], s[1], s[2], s[3])
    case _ => false
  }

  predicate Surrogate(cp: bv32) {
    0xD800 <= cp <= 0xDFFF
  }

  /** The smallest code point that needs n bytes. */
  function Smallest(n: nat): bv32 {
    if n <= 1 then 0 else if n == 2 then 0x80 else if n == 3 then 0x800 else 0x1_0000
  }

  /** A decoded value in its shortest form, and in the range of Unicode. */
  predicate Canonical(d: Decoded) {
    d.result.CodePoint? && Smallest(d.consumed) <= d.result.cp <= MAX
  }

  lemma Canonical2(b0: bv8, b1: bv8)
    requires Is2(b0, b1)
    ensures Join2(b0, b1) < 0x800 && Tail(b1)
    ensures 0x80 <= Join2(b0, b1) <==> 0xC2 <= b0 <= 0xDF
    ensures 0x80 <= Join2(b0, b1) ==>
      Byte(0xC0 | (Join2(b0, b1) >> 6)) == b0 && Byte(0x80 | (Join2(b0, b1) & 0x3F)) == b1
  {
  }

  lemma Range3(b0: bv8, b1: bv8, b2: bv8)
    requires Is3(b0, b1, b2)
    ensures var cp := Join3(b0, b1, b2);
      cp < 0x1_0000 && (0x800 <= cp && !Surrogate(cp) <==> WellFormed3(b0, b1, b2))
  {
  }

  lemma Canonical3(b0: bv8, b1: bv8, b2: bv8)
    requires Is3(b0, b1, b2)
    ensures var cp := Join3(b0, b1, b2);
      Byte(0xE0 | (cp >> 12)) == b0 && Byte(0x80 | ((cp >> 6) & 0x3F)) == b1 && Byte(0x80 | (cp & 0x3F)) == b2
  {
  }

  lemma Range4(b0: bv8, b1: bv8, b2: bv8, b3: bv8)
    requires Is4(b0, b1, b2, b3)
    ensures 0x1_0000 <= Join4(b0, b1, b2, b3) <= MAX <==> WellFormed4(b0, b1, b2, b3)
  {
  }

  lemma Canonical4(b0: bv8, b1: bv8, b2: bv8, b3: bv8)
    requires Is4(b0, b1, b2, b3)
    ensures var cp := Join4(b0, b1, b2, b3);
      && Byte(0xF0 | (cp >> 18)) == b0 && Byte(0x80 | ((cp >> 12) & 0x3F)) == b1
      && Byte(0x80 | ((cp >> 6) & 0x3F)) == b2 && Byte(0x80 | (cp & 0x3F)) == b3
  {
  }

  /** Decoding four kinds of sequence, exactly. */
  lemma DecodeCases(s: seq<bv8>)
    requires Decode(s).result.CodePoint?
    ensures var d := Decode(s);
      && (d.consumed == 1 ==> |s| >= 1 && s[0] < 0x80 && d.result.cp == Wide(s[0]))
      && (d.consumed == 2 ==> |s| >= 2 && Is2(s[0], s[1]) && d.result.cp == Join2(s[0], s[1]))
      && (d.consumed == 3 ==> |s| >= 3 && Is3(s[0], s[1], s[2]) && d.result.cp == Join3(s[0], s[1], s[2]))
      && (d.consumed == 4 ==> |s| >= 4 && Is4(s[0], s[1], s[2], s[3]) && d.result.cp == Join4(s[0], s[1], s[2], s[3]))
  {
    hide Join2, Join3, Join4, Wide;
  }

  predicate Is2(b0: bv8, b1: bv8) {
    b0 >= 0x80 && b0 & 0xE0 == 0xC0 && IsContinuation(b1)
  }

  predicate Is3(b0: bv8, b1: bv8, b2: bv8) {
    b0 & 0xF0 == 0xE0 && IsContinuation(b1) && IsContinuation(b2)
  }

  predicate Is4(b0: bv8, b1: bv8, b2: bv8, b3: bv8) {
    b0 & 0xF8 == 0xF0 && IsContinuation(b1) && IsContinuation(b2) && IsContinuation(b3)
  }

  lemma Encode2(b0: bv8, b1: bv8)
    requires Is2(b0, b1) && Join2(b0, b1) >= 0x80
    ensures Encode(Join2(b0, b1)) == [b0, b1]
  {
    Canonical2(b0, b1);
    hide Byte, Join2;
  }

  lemma Encode3(b0: bv8, b1: bv8, b2: bv8)
    requires Is3(b0, b1, b2) && Join3(b0, b1, b2) >= 0x800
    ensures Encode(Join3(b0, b1, b2)) == [b0, b1, b2]
  {
    hide Byte, Join3;
    Range3(b0, b1, b2);
    Canonical3(b0, b1, b2);
  }

  lemma Encode4(b0: bv8, b1: bv8, b2: bv8, b3: bv8)
    requires Is4(b0, b1, b2, b3) && Join4(b0, b1, b2, b3) >= 0x1_0000
    ensures Encode(Join4(b0, b1, b2, b3)) == [b0, b1, b2, b3]
  {
    hide Byte, Join4;
    Canonical4(b0, b1, b2, b3);
  }

  /** The bytes of a canonical sequence are the encoding. */
  lemma CanonicalBytes(s: seq<bv8>)
    requires Canonical(Decode(s))
    ensures Decode(s).consumed <= |s| && Encode(Decode(s).result.cp) == s[..Decode(s).consumed]
  {
    hide Decode, Encode, Byte, Join2, Join3, Join4, Wide, Is2, Is3, Is4;
    var d := Decode(s);
    DecodeAdvances(s);
    DecodeCases(s);
    if d.consumed == 1 {
      Encode1(s[0]);
    } else if d.consumed == 2 {
      Encode2(s[0], s[1]);
    } else if d.consumed == 3 {
      Encode3(s[0], s[1], s[2]);
    } else {
      Encode4(s[0], s[1], s[2], s[3]);
    }
  }

  lemma Encode1(b: bv8)
    requires b < 0x80
    ensures Encode(Wide(b)) == [b]
  {
    OneByte(b);
  }

  /** Encoding a decoded value gives back the consumed bytes if and only if it is canonical. */
  lemma ReencodeIff(s: seq<bv8>)
    requires Decode(s).result.CodePoint?
    ensures var d := Decode(s);
      d.consumed <= |s| && (d.result.cp <= MAX && Encode(d.result.cp) == s[..d.consumed] <==> Canonical(d))
  {
    hide Decode, Encode;
    var d := Decode(s);
    DecodeAdvances(s);
    if Canonical(d) {
      CanonicalBytes(s);
    }
  }

  lemma OneByte(b: bv8)
    ensures b < 0x80 ==> Wide(b) < 0x80 && Byte(Wide(b)) == b
  {
  }

  /**
    What the decoder takes, against the standard: a sequence is well-formed if and only if it is
    taken whole, is the shortest form, and is neither a surrogate nor above 10FFFF.
   */
  lemma WellFormedIff(s: seq<bv8>)
    ensures WellFormed(s) <==>
      var d := Decode(s); s != [] && d.consumed == |s| && Canonical(d) && !Surrogate(d.result.cp)
  {
    hide Decode, Byte, Join2, Join3, Join4, IsContinuation, WellFormed3, WellFormed4;
    DecodeAdvances(s);
    if Decode(s).result.CodePoint? {
      DecodeCases(s);
      var d := Decode(s);
      if d.consumed == 2 {
        Canonical2(s[0], s[1]);
      } else if d.consumed == 3 {
        Range3(s[0], s[1], s[2]);
      } else if d.consumed == 4 {
        Range4(s[0], s[1], s[2], s[3]);
      } else {
        OneByte(s[0]);
      }
    }
    if WellFormed(s) {
      WellFormedDecodes(s);
    }
  }

  lemma WellFormedDecodes(s: seq<bv8>)
    requires WellFormed(s)
    ensures Decode(s).result.CodePoint? && Decode(s).consumed == |s|
  {
    hide Join2, Join3, Join4, Wide;
  }

  /** What the encoder writes is well-formed, except for surrogates, which it encodes too. */
  lemma EncodeWellFormedIff(cp: bv32)
    requires cp <= MAX
    ensures WellFormed(Encode(cp)) <==> !Surrogate(cp)
  {
    hide Decode, Encode, WellFormed;
    DecodeEncode(cp, []);
    assert Encode(cp) + [] == Encode(cp);
    WellFormedIff(Encode(cp));
  }

  // ---------------------------------------------------------------------------
  // Byte order is code point order (section 1 of RFC 3629)
  // ---------------------------------------------------------------------------

  /** The sequences first differ at k, where s has less. */
  predicate LessAt<T(==)>(lt: (T, T) -> bool, s: seq<T>, t: seq<T>, k: nat) {
    k < |s| && k < |t| && lt(s[k], t[k]) && forall i :: 0 <= i < k ==> s[i] == t[i]
  }

  /** Lexicographic order. */
  ghost predicate Less<T>(lt: (T, T) -> bool, s: seq<T>, t: seq<T>) {
    s < t || exists k: nat :: LessAt(lt, s, t, k)
  }

  const BYTES: (bv8, bv8) -> bool := (x, y) => x < y
  const CODE_POINTS: (bv32, bv32) -> bool := (x, y) => Below(x, y)

  predicate Below(a: bv32, b: bv32) {
    a < b
  }

  predicate ByteBelow(a: bv8, b: bv8) {
    a < b
  }

  predicate Valid(cp: bv32) {
    cp <= MAX
  }

  /** The six low bits, and the others. */
  function Low(a: bv32): bv32 {
    a & 0x3F
  }

  function Rest(a: bv32): bv32 {
    a >> 6
  }

  // Comparing words whole is beyond the solver, so the lemmas below go by pieces and keep the
  // comparisons behind names.

  lemma HalfTrichotomy(a: bv32, b: bv32)
    requires a < 0x1000 && b < 0x1000
    ensures Below(a, b) || Below(b, a) || a == b
  {
  }

  function High12(a: bv32): (h: bv32)
    requires Valid(a)
    ensures h < 0x1000
  {
    a >> 12
  }

  function Low12(a: bv32): (l: bv32)
    ensures l < 0x1000
  {
    a & 0xFFF
  }

  lemma ByHalves(a: bv32, b: bv32)
    requires Valid(a) && Valid(b)
    ensures Below(High12(a), High12(b)) ==> Below(a, b)
    ensures High12(a) == High12(b) && Low12(a) == Low12(b) ==> a == b
  {
  }

  lemma ByLowHalf(a: bv32, b: bv32)
    requires Valid(a) && Valid(b)
    ensures High12(a) == High12(b) && Below(Low12(a), Low12(b)) ==> Below(a, b)
  {
  }

  lemma Trichotomy(a: bv32, b: bv32)
    requires Valid(a) && Valid(b)
    ensures Below(a, b) || Below(b, a) || a == b
  {
    hide Below, High12, Low12, Valid;
    HalfTrichotomy(High12(a), High12(b));
    HalfTrichotomy(Low12(a), Low12(b));
    ByHalves(a, b);
    ByHalves(b, a);
    ByLowHalf(a, b);
    ByLowHalf(b, a);
  }

  lemma RestKeepsOrder(a: bv32, b: bv32)
    requires Valid(a) && Valid(b)
    ensures Valid(Rest(a)) && (Below(a, b) ==> !Below(Rest(b), Rest(a)))
  {
  }

  lemma LowOrder(a: bv32, b: bv32)
    requires Valid(a) && Valid(b)
    ensures Below(a, b) && Rest(a) == Rest(b) ==> Below(Low(a), Low(b))
  {
  }

  /** Comparing numbers by their six low bits and the rest. */
  lemma SixBits(a: bv32, b: bv32)
    requires Valid(a) && Valid(b)
    ensures Valid(Rest(a)) && Valid(Rest(b))
    ensures Below(a, b) ==> Below(Rest(a), Rest(b)) || (Rest(a) == Rest(b) && Below(Low(a), Low(b)))
  {
    hide Below, Valid, Rest, Low;
    RestKeepsOrder(a, b);
    RestKeepsOrder(b, a);
    LowOrder(a, b);
    Trichotomy(Rest(a), Rest(b));
  }

  function Tail6(a: bv32): bv8 {
    Byte(0x80 | (a & 0x3F))
  }

  lemma TailOrder(a: bv32, b: bv32)
    ensures Below(Low(a), Low(b)) ==> ByteBelow(Tail6(a), Tail6(b))
    ensures Low(a) == Low(b) ==> Tail6(a) == Tail6(b)
  {
  }

  /** The first byte with these high bits before the rest of the code point. */
  function Lead(mark: bv32, a: bv32): bv8 {
    Byte(mark | a)
  }

  lemma LeadsInOrder(mark: bv32, a: bv32, b: bv32)
    requires mark == 0xC0 || mark == 0xE0 || mark == 0xF0
    requires a < 0x20 && b < 0x20 && (mark == 0xE0 ==> a < 0x10 && b < 0x10) && (mark == 0xF0 ==> a < 0x08 && b < 0x08)
    ensures Below(a, b) ==> ByteBelow(Lead(mark, a), Lead(mark, b))
  {
  }

  /** Lead bytes of longer sequences are greater. */
  lemma LeadOrder(a: bv32, b: bv32)
    requires a < b <= MAX && Length(a) < Length(b)
    ensures ByteBelow(Encode(a)[0], Encode(b)[0])
  {
  }

  lemma EncodeBytes(cp: bv32)
    requires Valid(cp)
    ensures Length(cp) == 1 ==> Encode(cp) == [Byte(cp)]
    ensures Length(cp) == 2 ==> Encode(cp) == [Lead(0xC0, Rest(cp)), Tail6(cp)]
    ensures Length(cp) == 3 ==> Encode(cp) == [Lead(0xE0, Rest(Rest(cp))), Tail6(Rest(cp)), Tail6(cp)]
    ensures Length(cp) == 4 ==>
      Encode(cp) == [Lead(0xF0, Rest(Rest(Rest(cp)))), Tail6(Rest(Rest(cp))), Tail6(Rest(cp)), Tail6(cp)]
  {
    hide Byte, Rest;
    Shifts(cp);
  }

  lemma Shifts(cp: bv32)
    ensures Rest(cp) == cp >> 6 && Rest(Rest(cp)) == cp >> 12 && Rest(Rest(Rest(cp))) == cp >> 18
  {
  }

  lemma LeadFits(cp: bv32)
    requires Valid(cp)
    ensures Length(cp) == 2 ==> Rest(cp) < 0x20
    ensures Length(cp) == 3 ==> Rest(Rest(cp)) < 0x10
    ensures Rest(Rest(Rest(cp))) < 0x08
  {
  }

  /** The sequences first differ at one of the first four places, where s has less. */
  predicate LessSoon(s: seq<bv8>, t: seq<bv8>)
    requires |s| == |t| && 0 < |s| <= 4
  {
    || ByteBelow(s[0], t[0])
    || (|s| > 1 && s[0] == t[0] && ByteBelow(s[1], t[1]))
    || (|s| > 2 && s[0] == t[0] && s[1] == t[1] && ByteBelow(s[2], t[2]))
    || (|s| > 3 && s[0] == t[0] && s[1] == t[1] && s[2] == t[2] && ByteBelow(s[3], t[3]))
  }

  lemma FirstDifference(s: seq<bv8>, t: seq<bv8>) returns (k: nat)
    requires |s| == |t| && 0 < |s| <= 4 && LessSoon(s, t)
    ensures LessAt(BYTES, s, t, k)
  {
    k := if s[0] < t[0] then 0 else if s[1] < t[1] then 1 else if s[2] < t[2] then 2 else 3;
  }

  /** Encodings of the same length. */
  lemma SameLengthOrder(a: bv32, b: bv32)
    requires Valid(a) && Valid(b) && Below(a, b) && Length(a) == Length(b)
    ensures LessSoon(Encode(a), Encode(b))
  {
    hide Below, ByteBelow, Valid, Encode, Byte, Tail6, Lead, Rest, Low;
    EncodeBytes(a);
    EncodeBytes(b);
    LeadFits(a);
    LeadFits(b);
    SixBits(a, b);
    TailOrder(a, b);
    if Length(a) == 1 {
      OneByteOrder(a, b);
    } else if Length(a) == 2 {
      LeadsInOrder(0xC0, Rest(a), Rest(b));
    } else {
      SixBits(Rest(a), Rest(b));
      TailOrder(Rest(a), Rest(b));
      if Length(a) == 3 {
        LeadsInOrder(0xE0, Rest(Rest(a)), Rest(Rest(b)));
      } else {
        SixBits(Rest(Rest(a)), Rest(Rest(b)));
        TailOrder(Rest(Rest(a)), Rest(Rest(b)));
        LeadsInOrder(0xF0, Rest(Rest(Rest(a))), Rest(Rest(Rest(b))));
      }
    }
  }

  lemma OneByteOrder(a: bv32, b: bv32)
    requires Below(a, b) && Length(a) == 1 && Length(b) == 1
    ensures ByteBelow(Byte(a), Byte(b))
  {
  }

  /** Where the encodings of two code points first differ. */
  lemma EncodeOrder(a: bv32, b: bv32) returns (k: nat)
    requires Valid(a) && Valid(b) && Below(a, b)
    ensures LessAt(BYTES, Encode(a), Encode(b), k)
  {
    hide Encode, LessAt, LessSoon, ByteBelow;
    if Length(a) == Length(b) {
      SameLengthOrder(a, b);
      k := FirstDifference(Encode(a), Encode(b));
    } else {
      LeadOrder(a, b);
      k := 0;
      FirstIsLess(Encode(a), Encode(b));
    }
  }

  lemma FirstIsLess(s: seq<bv8>, t: seq<bv8>)
    requires s != [] && t != [] && ByteBelow(s[0], t[0])
    ensures LessAt(BYTES, s, t, 0)
  {
  }

  lemma {:induction false} EncodeAllConcat(a: seq<bv32>, b: seq<bv32>)
    ensures EncodeAll(a + b) == EncodeAll(a) + EncodeAll(b)
  {
    hide Encode;
    if a == [] {
      assert a + b == b;
    } else {
      assert (a + b)[1..] == a[1..] + b;
      EncodeAllConcat(a[1..], b);
    }
  }

  lemma EncodesSomething(cps: seq<bv32>)
    requires cps != []
    ensures EncodeAll(cps) != []
  {
  }

  lemma LessAfter(common: seq<bv8>, s: seq<bv8>, t: seq<bv8>, s': seq<bv8>, t': seq<bv8>, k: nat)
    requires LessAt(BYTES, s, t, k)
    ensures LessAt(BYTES, common + (s + s'), common + (t + t'), |common| + k)
  {
    assert forall i :: 0 <= i < |s| ==> (common + (s + s'))[|common| + i] == s[i];
    assert forall i :: 0 <= i < |t| ==> (common + (t + t'))[|common| + i] == t[i];
  }

  lemma OrderKept(cs: seq<bv32>, ds: seq<bv32>)
    requires AllValid(cs) && AllValid(ds) && Less(CODE_POINTS, cs, ds)
    ensures Less(BYTES, EncodeAll(cs), EncodeAll(ds))
  {
    hide Encode, EncodeAll;
    if cs < ds {
      assert ds == cs + ds[|cs|..];
      EncodeAllConcat(cs, ds[|cs|..]);
      EncodesSomething(ds[|cs|..]);
    } else {
      var k: nat :| LessAt(CODE_POINTS, cs, ds, k);
      SplitAt(cs, k);
      SplitAt(ds, k);
      assert cs[..k] == ds[..k];
      var j := EncodeOrder(cs[k], ds[k]);
      LessAfter(EncodeAll(cs[..k]), Encode(cs[k]), Encode(ds[k]), EncodeAll(cs[k + 1..]), EncodeAll(ds[k + 1..]), j);
    }
  }

  lemma SplitAt(cs: seq<bv32>, k: nat)
    requires k < |cs|
    ensures EncodeAll(cs) == EncodeAll(cs[..k]) + (Encode(cs[k]) + EncodeAll(cs[k + 1..]))
  {
    hide Encode;
    assert cs == cs[..k] + cs[k..];
    EncodeAllConcat(cs[..k], cs[k..]);
    assert cs[k..][1..] == cs[k + 1..];
  }

  /** One of two different sequences is less. */
  lemma {:induction false} Comparable(cs: seq<bv32>, ds: seq<bv32>, n: nat)
    requires AllValid(cs) && AllValid(ds) && n <= |cs| && n <= |ds| && cs != ds
    requires forall i :: 0 <= i < n ==> cs[i] == ds[i]
    ensures Less(CODE_POINTS, cs, ds) || Less(CODE_POINTS, ds, cs)
    decreases |cs| - n
  {
    hide LessAt;
    if n == |cs| {
      PrefixOf(cs, ds);
    } else if n == |ds| {
      PrefixOf(ds, cs);
    } else if cs[n] == ds[n] {
      Comparable(cs, ds, n + 1);
    } else {
      OneIsLess(cs, ds, n);
    }
  }

  lemma PrefixOf(cs: seq<bv32>, ds: seq<bv32>)
    requires |cs| <= |ds| && cs != ds && forall i :: 0 <= i < |cs| ==> cs[i] == ds[i]
    ensures cs < ds
  {
    assert cs == ds[..|cs|];
  }

  lemma OneIsLess(cs: seq<bv32>, ds: seq<bv32>, n: nat)
    requires n < |cs| && n < |ds| && cs[n] != ds[n] && Valid(cs[n]) && Valid(ds[n])
    requires forall i :: 0 <= i < n ==> cs[i] == ds[i]
    ensures LessAt(CODE_POINTS, cs, ds, n) || LessAt(CODE_POINTS, ds, cs, n)
  {
    Trichotomy(cs[n], ds[n]);
    hide Below;
  }

  lemma NotBoth(s: seq<bv8>, t: seq<bv8>)
    requires Less(BYTES, s, t)
    ensures !Less(BYTES, t, s) && s != t
  {
  }

  /** Sorting encoded texts by bytes sorts them by code points. */
  lemma {:induction false} OrderIff(cs: seq<bv32>, ds: seq<bv32>)
    requires AllValid(cs) && AllValid(ds)
    ensures Less(CODE_POINTS, cs, ds) <==> Less(BYTES, EncodeAll(cs), EncodeAll(ds))
  {
    hide EncodeAll, Less;
    if Less(CODE_POINTS, cs, ds) {
      OrderKept(cs, ds);
    } else if cs != ds {
      Comparable(cs, ds, 0);
      OrderKept(ds, cs);
      NotBoth(EncodeAll(ds), EncodeAll(cs));
    } else {
      NotLessThanItself(EncodeAll(cs));
    }
  }

  lemma NotLessThanItself(s: seq<bv8>)
    ensures !Less(BYTES, s, s)
  {
  }
}

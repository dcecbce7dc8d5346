/** The percent decoder of yvent/http/HttpRequest.cpp and the encodings it inverts. */
module Percent {
  import opened Bytes

  const PERCENT: Byte := 37
  const SPACE: Byte := 32
  const QUESTION: Byte := 63

  /** `c | 0x20`. */
  function OrCaseBit(c: Byte): Byte {
    if c / 32 % 2 == 1 then c else c + 32
  }

  /** The value of a hexadecimal digit of either case. */
  function HexDigit(c: Byte): (r: Option<nat>)
    ensures r.Some? ==> r.value < 16
  {
    if 48 <= c <= 57 then Some(c - 48)
    else
      var h := OrCaseBit(c);
      if 97 <= h <= 102 then Some(h - 97 + 10) else None
  }

  /** The digits are 0-9, A-F and a-f, and no other byte. */
  lemma HexDigitTable(c: Byte)
    ensures HexDigit(c) == if 48 <= c < 58 then Some(c - 48)
                           else if 65 <= c < 71 then Some(c - 65 + 10)
                           else if 97 <= c < 103 then Some(c - 97 + 10)
                           else None
  {
  }

  /** The loop of `setPath` on what is left of the path followed by its terminator. A byte
      that is no digit is skipped and leaves the loop looking for digits. */
  function Decode(t: seq<Byte>, percent: bool): (r: seq<Byte>)
    ensures t != [] ==> |r| < |t|
    ensures t == [] ==> r == []
    decreases |t|
  {
    if |t| <= 1 then []
    else if !percent then
      if t[0] == PERCENT then Decode(t[1..], true) else [t[0]] + Decode(t[1..], false)
    else
      var hex1 := HexDigit(t[0]);
      if hex1.None? then Decode(t[1..], true)
      else
        var hex2 := HexDigit(t[1]);
        if hex2.None? then Decode(t[2..], true)
        else [hex1.value * 16 + hex2.value] + Decode(t[2..], false)
  }

  /** What one round of the loop consumes, adds to the path, and which state it leaves. */
  datatype Round = Round(taken: nat, added: seq<Byte>, percent: bool)

  function RoundOf(t: seq<Byte>, percent: bool): (r: Round)
    requires |t| >= 2
    ensures r.taken <= 2
  {
    if !percent then
      if t[0] == PERCENT then Round(1, [], true) else Round(1, [t[0]], false)
    else if HexDigit(t[0]).None? then Round(1, [], true)
    else if HexDigit(t[1]).None? then Round(2, [], true)
    else Round(2, [HexDigit(t[0]).value * 16 + HexDigit(t[1]).value], false)
  }

  lemma DecodeByRounds(t: seq<Byte>, percent: bool)
    requires |t| >= 2
    ensures var r := RoundOf(t, percent);
      Decode(t, percent) == r.added + Decode(t[r.taken..], r.percent)
  {
  }

  /** Bytes that may stand for themselves in a path. */
  predicate Plain(b: Byte) { b != 37 && b != 32 && b != 63 && b != 13 }

  /** `e` starts with the escape of `b`, section 2.1 of RFC 3986, in either case. */
  predicate Escape(e: seq<Byte>, b: Byte) {
    && |e| >= 3 && e[0] == 37
    && HexDigit(e[1]).Some? && HexDigit(e[2]).Some?
    && b == HexDigit(e[1]).value * 16 + HexDigit(e[2]).value
  }

  /** `e` is an encoding of `x`: each byte is escaped or, if it may, stands for itself. */
  predicate Encodes(e: seq<Byte>, x: seq<Byte>)
    decreases |x|
  {
    if x == [] then e == []
    else
      || (e != [] && e[0] == x[0] && Plain(x[0]) && Encodes(e[1..], x[1..]))
      || (Escape(e, x[0]) && Encodes(e[3..], x[1..]))
  }

  lemma DecodePlain(t: seq<Byte>)
    requires |t| >= 2 && t[0] != PERCENT
    ensures Decode(t, false) == [t[0]] + Decode(t[1..], false)
  {
  }

  lemma DecodeEscape(t: seq<Byte>, b: Byte)
    requires |t| >= 4 && Escape(t, b)
    ensures Decode(t, false) == [b] + Decode(t[3..], false)
  {
  }

  lemma DropFirst(e: seq<Byte>, n: nat, t: seq<Byte>)
    requires n <= |e|
    ensures (e + t)[..n] == e[..n] && (e + t)[n..] == e[n..] + t
  {
  }

  /** Decoding undoes every encoding, whatever follows it: the decoder goes on in its start
      state exactly where the encoding ends. */
  lemma {:induction false} DecodeUndoes(e: seq<Byte>, x: seq<Byte>, t: seq<Byte>)
    requires Encodes(e, x) && t != []
    ensures Decode(e + t, false) == x + Decode(t, false)
    decreases |x|
  {
    if x == [] {
      assert e + t == t && x + Decode(t, false) == Decode(t, false);
    } else if e != [] && e[0] == x[0] && Plain(x[0]) && Encodes(e[1..], x[1..]) {
      DropFirst(e, 1, t);
      DecodePlain(e + t);
      DecodeUndoes(e[1..], x[1..], t);
      FirstThenRest(x, Decode(t, false));
    } else {
      DropFirst(e, 3, t);
      DecodeEscape(e + t, x[0]);
      DecodeUndoes(e[3..], x[1..], t);
      FirstThenRest(x, Decode(t, false));
    }
  }

  /** A `%` with at most one byte between it and the terminator. */
  predicate CutEscape(cut: seq<Byte>) { cut == [] || (cut[0] == 37 && |cut| <= 2) }

  lemma CutAloneAddsNothing(cut: seq<Byte>, stop: Byte, percent: bool)
    requires HexDigit(stop).None? && CutEscape(cut)
    ensures Decode(cut + [stop], percent) == []
    ensures cut != [] ==> Decode((cut + [stop])[1..], true) == []
  {
    var t := cut + [stop];
    if |cut| == 2 {
      assert t[1..] == [cut[1], stop];
      assert Decode(t[1..], true) == [];
    }
  }

  /** Behind any bytes at all, and in whichever state they leave the decoder, an escape cut off
      by a terminator that is no digit adds nothing. */
  lemma {:induction false} CutEscapeAddsNothing(x: seq<Byte>, cut: seq<Byte>, stop: Byte, percent: bool)
    requires HexDigit(stop).None? && CutEscape(cut)
    ensures Decode(x + cut + [stop], percent) == Decode(x + [stop], percent)
    decreases |x|
  {
    var u, v := x + cut + [stop], x + [stop];
    if x == [] {
      assert u == cut + [stop] && v == [stop];
      CutAloneAddsNothing(cut, stop, percent);
    } else if !percent || HexDigit(x[0]).None? {
      DropFront(x, 1, cut, [stop]);
      CutEscapeAddsNothing(x[1..], cut, stop, percent || x[0] == PERCENT);
    } else if |x| == 1 {
      CutAloneAddsNothing(cut, stop, true);
      DropFront(x, 1, cut, [stop]);
      assert u[1..] == cut + [stop] && u[2..] == u[1..][1..];
    } else {
      DropFront(x, 2, cut, [stop]);
      CutEscapeAddsNothing(x[2..], cut, stop, HexDigit(x[1]).None?);
    }
  }

  lemma DropFront(x: seq<Byte>, n: nat, y: seq<Byte>, z: seq<Byte>)
    requires n <= |x|
    ensures (x + y + z)[n..] == x[n..] + y + z && (x + z)[n..] == x[n..] + z
  {
  }

  /** The decoder inverts encoding, with or without a cut-off escape behind it. */
  lemma DecodeInverts(e: seq<Byte>, x: seq<Byte>, cut: seq<Byte>, stop: Byte)
    requires Encodes(e, x)
    requires HexDigit(stop).None? && CutEscape(cut)
    ensures Decode(e + cut + [stop], false) == x
  {
    CutEscapeAddsNothing(e, cut, stop, false);
    DecodeUndoes(e, x, [stop]);
    assert x + Decode([stop], false) == x;
  }

  /** What the decoder drops while it looks for two digits in a row: a byte that is no digit,
      or a digit together with the byte behind it that is none. */
  predicate Noise(n: seq<Byte>) {
    || (|n| == 1 && HexDigit(n[0]).None?)
    || (|n| == 2 && HexDigit(n[0]).Some? && HexDigit(n[1]).None?)
  }

  lemma OneNoiseDropped(n: seq<Byte>, t: seq<Byte>)
    requires Noise(n) && t != []
    ensures Decode(n + t, true) == Decode(t, true)
  {
    DecodeByRounds(n + t, true);
    assert (n + t)[|n|..] == t;
  }

  /** Between `%` and the next two digits, any amount of noise is dropped; then the two digits
      are one byte of the path. */
  lemma {:induction false} NoiseDropped(noise: seq<seq<Byte>>, t: seq<Byte>)
    requires forall n :: n in noise ==> Noise(n)
    requires t != []
    ensures Decode(Flatten(noise) + t, true) == Decode(t, true)
    ensures Decode([37] + (Flatten(noise) + t), false) == Decode(t, true)
    ensures |t| >= 3 && HexDigit(t[0]).Some? && HexDigit(t[1]).Some? ==>
              Decode(t, true) == [HexDigit(t[0]).value * 16 + HexDigit(t[1]).value] + Decode(t[2..], false)
    decreases |noise|
  {
    var s := Flatten(noise) + t;
    if noise == [] {
      assert s == t;
    } else {
      var rest := Flatten(noise[1..]);
      NoiseDropped(noise[1..], t);
      OneNoiseDropped(noise[0], rest + t);
      Associate(noise[0], rest, t);
    }
    assert ([37] + s)[1..] == s;
  }

  /** An encoding holds no byte with a meaning in the request line. */
  lemma {:induction false} EncodingIsClean(e: seq<Byte>, x: seq<Byte>)
    requires Encodes(e, x)
    ensures SPACE !in e && QUESTION !in e && CR !in e
    decreases |x|
  {
    if x == [] {
    } else if e != [] && e[0] == x[0] && Plain(x[0]) && Encodes(e[1..], x[1..]) {
      EncodingIsClean(e[1..], x[1..]);
      assert e == [e[0]] + e[1..];
    } else {
      EncodingIsClean(e[3..], x[1..]);
      assert e == [e[0], e[1], e[2]] + e[3..];
    }
  }

  function HexChar(d: nat): (c: Byte)
    requires d < 16
    ensures HexDigit(c) == Some(d)
  {
    if d < 10 then 48 + d else 55 + d
  }

  /** The encoding that escapes exactly the chosen positions. */
  function Encode(x: seq<Byte>, chosen: seq<bool>): seq<Byte>
    requires |chosen| == |x|
  {
    if x == [] then []
    else (if chosen[0] then [PERCENT, HexChar(x[0] / 16), HexChar(x[0] % 16)] else [x[0]])
         + Encode(x[1..], chosen[1..])
  }

  lemma {:induction false} EncodeEncodes(x: seq<Byte>, chosen: seq<bool>)
    requires |chosen| == |x|
    requires forall i :: 0 <= i < |x| && !Plain(x[i]) ==> chosen[i]
    ensures Encodes(Encode(x, chosen), x)
  {
    if x != [] {
      EncodeEncodes(x[1..], chosen[1..]);
      var e := Encode(x, chosen);
      if chosen[0] {
        assert e[3..] == Encode(x[1..], chosen[1..]);
        assert Escape(e, x[0]);
      } else {
        assert e[1..] == Encode(x[1..], chosen[1..]);
      }
    }
  }
}

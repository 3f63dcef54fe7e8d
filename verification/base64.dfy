/** Base64 as `java.util.Base64` implements it for the basic (RFC 4648,
    section 4) alphabet: the padding encoder `getEncoder()` and the strict
    decoder `getDecoder()`, whose acceptance is the raw-value test of
    `XSkull.isBase64`. */
module Base64 {
  import opened Wrappers
  import opened Bytes

  /** A 6-bit group, the value one Base64 character carries. */
  type sextet = x: int | 0 <= x < 64

  const Pad: char := '='

  /** Membership in the 64-character alphabet of RFC 4648, section 4
      (padding excluded). */
  predicate IsAlphabetChar(c: char) {
    ('A' <= c <= 'Z') || ('a' <= c <= 'z') || ('0' <= c <= '9') || c == '+' || c == '/'
  }

  predicate AllAlphabet(s: string) {
    forall i :: 0 <= i < |s| ==> IsAlphabetChar(s[i])
  }

  /** Table 1 of RFC 4648: value to character. */
  function CharOf(v: sextet): (c: char)
    ensures IsAlphabetChar(c)
  {
    if v < 26 then ('A' as int + v) as char
    else if v < 52 then ('a' as int + (v - 26)) as char
    else if v < 62 then ('0' as int + (v - 52)) as char
    else if v == 62 then '+'
    else '/'
  }

  /** Table 1 of RFC 4648: character to value. */
  function ValueOf(c: char): (v: sextet)
    requires IsAlphabetChar(c)
    ensures CharOf(v) == c
  {
    if 'A' <= c <= 'Z' then c as int - 'A' as int
    else if 'a' <= c <= 'z' then c as int - 'a' as int + 26
    else if '0' <= c <= '9' then c as int - '0' as int + 52
    else if c == '+' then 62
    else 63
  }

  lemma ValueOfCharOf(v: sextet)
    ensures ValueOf(CharOf(v)) == v
  {
  }

  // ---------------------------------------------------------------------
  // Encoder: Base64.getEncoder(), which pads.

  /** Three bytes become four characters. */
  function EncodeTriple(b0: byte, b1: byte, b2: byte): string {
    [CharOf(b0 / 4), CharOf((b0 % 4) * 16 + b1 / 16), CharOf((b1 % 16) * 4 + b2 / 64), CharOf(b2 % 64)]
  }

  /** A final pair of bytes: three characters and one pad. */
  function EncodePair(b0: byte, b1: byte): string {
    [CharOf(b0 / 4), CharOf((b0 % 4) * 16 + b1 / 16), CharOf((b1 % 16) * 4), Pad]
  }

  /** A final single byte: two characters and two pads. */
  function EncodeSingle(b0: byte): string {
    [CharOf(b0 / 4), CharOf((b0 % 4) * 16), Pad, Pad]
  }

  /** `Base64.getEncoder().encodeToString(b)`. */
  function Encode(b: seq<byte>): (s: string)
    ensures |s| == 4 * ((|b| + 2) / 3)
    ensures forall i :: 0 <= i < |s| ==> IsAlphabetChar(s[i]) || s[i] == Pad
    decreases |b|
  {
    if |b| == 0 then ""
    else if |b| == 1 then EncodeSingle(b[0])
    else if |b| == 2 then EncodePair(b[0], b[1])
    else EncodeTriple(b[0], b[1], b[2]) + Encode(b[3..])
  }

  // ---------------------------------------------------------------------
  // Decoder: Base64.getDecoder().decode(String), which throws
  // IllegalArgumentException on input it rejects (here: None).

  /** The bytes carried by a unit of 2, 3 or 4 sextets: one, two or three.
      Bits beyond the last whole byte are dropped without being checked,
      as the JDK decoder does. */
  function DecodeUnit(unit: seq<sextet>): (r: seq<byte>)
    requires 2 <= |unit| <= 4
    ensures |r| == |unit| - 1
  {
    var first := (unit[0] as int) * 4 + unit[1] / 16;
    if |unit| == 2 then [first]
    else
      var second := (unit[1] as int % 16) * 16 + unit[2] / 4;
      if |unit| == 3 then [first, second]
      else [first, second, (unit[2] as int % 4) * 64 + unit[3]]
  }

  /** End of input, or of the data before the padding: an incomplete unit
      of one sextet is rejected, one of two or three yields its bytes. */
  function Flush(unit: seq<sextet>, out: seq<byte>): Option<seq<byte>>
    requires |unit| < 4
  {
    if |unit| == 0 then Some(out)
    else if |unit| == 1 then None
    else Some(out + DecodeUnit(unit))
  }

  /** The decoding loop over the remaining characters `s`, with `unit` the
      sextets read so far of the current 4-character unit and `out` the
      bytes produced.  Rules of the JDK basic decoder:
      - a character outside the alphabet and '=' is rejected;
      - '=' at the start of a unit is rejected; after two data characters
        it must be followed by a second '='; after one it leaves a
        dangling sextet, which `Flush` rejects;
      - nothing may follow the padding;
      - padding is optional at the end of input. */
  function Run(s: string, unit: seq<sextet>, out: seq<byte>): Option<seq<byte>>
    requires |unit| < 4
    decreases |s|
  {
    if |s| == 0 then Flush(unit, out)
    else if s[0] == Pad then
      if |unit| == 0 then None
      else if |unit| == 2 && (|s| == 1 || s[1] != Pad) then None
      else
        var rest := if |unit| == 2 then s[2..] else s[1..];
        if |rest| != 0 then None else Flush(unit, out)
    else if !IsAlphabetChar(s[0]) then None
    else if |unit| == 3 then Run(s[1..], [], out + DecodeUnit(unit + [ValueOf(s[0])]))
    else Run(s[1..], unit + [ValueOf(s[0])], out)
  }

  /** `Base64.getDecoder().decode(s)`, `None` where it throws. */
  function Decode(s: string): Option<seq<byte>> {
    Run(s, [], [])
  }

  /** `XSkull.isBase64`: true exactly when the decoder does not throw. */
  predicate IsBase64(s: string) {
    Decode(s).Some?
  }

  // ---------------------------------------------------------------------
  // The shape of accepted input, stated without the decoding loop.

  /** Only alphabet characters, not leaving a unit at a single character. */
  predicate DataOnly(s: string, k: nat) {
    AllAlphabet(s) && (k + |s|) % 4 != 1
  }

  /** Alphabet characters followed by "=" completing a unit of three. */
  predicate OnePad(s: string, k: nat) {
    |s| >= 1 && s[|s| - 1] == Pad && AllAlphabet(s[..|s| - 1]) && (k + |s| - 1) % 4 == 3
  }

  /** Alphabet characters followed by "==" completing a unit of two. */
  predicate TwoPads(s: string, k: nat) {
    |s| >= 2 && s[|s| - 2] == Pad && s[|s| - 1] == Pad && AllAlphabet(s[..|s| - 2]) && (k + |s| - 2) % 4 == 2
  }

  /** Accepted input when `k` data characters of the current unit have
      already been read. */
  predicate ShapeAfter(s: string, k: nat) {
    DataOnly(s, k) || OnePad(s, k) || TwoPads(s, k)
  }

  /** Well-formed Base64 as the JDK basic decoder accepts it. */
  predicate WellFormed(s: string) {
    ShapeAfter(s, 0)
  }

  /** Dropping a leading alphabet character keeps `AllAlphabet`. */
  lemma AllAlphabetTail(s: string)
    requires |s| > 0 && IsAlphabetChar(s[0])
    ensures AllAlphabet(s) <==> AllAlphabet(s[1..])
  {
    if AllAlphabet(s[1..]) {
      forall i | 0 <= i < |s| ensures IsAlphabetChar(s[i]) {
        if i > 0 { assert s[i] == s[1..][i - 1]; }
      }
    }
  }

  lemma DataOnlyStep(s: string, k: nat)
    requires |s| > 0 && IsAlphabetChar(s[0])
    ensures DataOnly(s, k) <==> DataOnly(s[1..], (k + 1) % 4)
  {
    AllAlphabetTail(s);
    assert (k + |s|) % 4 == ((k + 1) % 4 + |s[1..]|) % 4;
  }

  lemma OnePadStep(s: string, k: nat)
    requires |s| > 0 && IsAlphabetChar(s[0])
    ensures OnePad(s, k) <==> OnePad(s[1..], (k + 1) % 4)
  {
    var t := s[1..];
    if |s| >= 2 {
      assert s[..|s| - 1][1..] == t[..|t| - 1];
      assert s[..|s| - 1][0] == s[0];
      AllAlphabetTail(s[..|s| - 1]);
      assert (k + |s| - 1) % 4 == ((k + 1) % 4 + |t| - 1) % 4;
    }
  }

  lemma TwoPadsStep(s: string, k: nat)
    requires |s| > 0 && IsAlphabetChar(s[0])
    ensures TwoPads(s, k) <==> TwoPads(s[1..], (k + 1) % 4)
  {
    var t := s[1..];
    if |s| >= 3 {
      assert s[..|s| - 2][1..] == t[..|t| - 2];
      assert s[..|s| - 2][0] == s[0];
      AllAlphabetTail(s[..|s| - 2]);
      assert (k + |s| - 2) % 4 == ((k + 1) % 4 + |t| - 2) % 4;
    } else if |s| == 2 {
      assert s[|s| - 2] != Pad;
    }
  }

  /** Reading one alphabet character moves the accepted shape one position
      along the unit. */
  lemma ShapeAfterStep(s: string, k: nat)
    requires |s| > 0 && IsAlphabetChar(s[0])
    ensures ShapeAfter(s, k) <==> ShapeAfter(s[1..], (k + 1) % 4)
  {
    DataOnlyStep(s, k);
    OnePadStep(s, k);
    TwoPadsStep(s, k);
  }

  /** Input starting with '=' has the accepted shape only as the "=" ending
      a unit of three or the "==" ending a unit of two. */
  lemma PadShape(s: string, k: nat)
    requires |s| > 0 && s[0] == Pad
    ensures ShapeAfter(s, k) <==> (|s| == 1 && k % 4 == 3) || (|s| == 2 && s[1] == Pad && k % 4 == 2)
  {
    assert !AllAlphabet(s) by { assert !IsAlphabetChar(s[0]); }
    if |s| >= 2 {
      assert !AllAlphabet(s[..|s| - 1]) by { assert s[..|s| - 1][0] == s[0]; }
    } else {
      assert s[..|s| - 1] == [];
    }
    if |s| >= 3 {
      assert !AllAlphabet(s[..|s| - 2]) by { assert s[..|s| - 2][0] == s[0]; }
    } else if |s| == 2 {
      assert s[..|s| - 2] == [];
    }
  }

  /** Input starting with a character outside the alphabet and padding never
      has the accepted shape. */
  lemma InvalidShape(s: string, k: nat)
    requires |s| > 0 && s[0] != Pad && !IsAlphabetChar(s[0])
    ensures !ShapeAfter(s, k)
  {
    assert !AllAlphabet(s);
    if |s| >= 2 {
      assert !AllAlphabet(s[..|s| - 1]) by { assert s[..|s| - 1][0] == s[0]; }
    }
    if |s| >= 3 {
      assert !AllAlphabet(s[..|s| - 2]) by { assert s[..|s| - 2][0] == s[0]; }
    }
  }

  /** The decoding loop succeeds exactly on input of the accepted shape,
      whatever bytes it has produced so far. */
  lemma {:induction false} RunAcceptsShape(s: string, unit: seq<sextet>, out: seq<byte>)
    requires |unit| < 4
    ensures Run(s, unit, out).Some? <==> ShapeAfter(s, |unit|)
    decreases |s|
  {
    if |s| == 0 {
    } else if s[0] == Pad {
      PadShape(s, |unit|);
    } else if !IsAlphabetChar(s[0]) {
      InvalidShape(s, |unit|);
    } else {
      var v := ValueOf(s[0]);
      var unit', out' := if |unit| == 3 then [] else unit + [v], if |unit| == 3 then out + DecodeUnit(unit + [v]) else out;
      assert Run(s, unit, out) == Run(s[1..], unit', out');
      assert |unit'| == (|unit| + 1) % 4;
      RunAcceptsShape(s[1..], unit', out');
      ShapeAfterStep(s, |unit|);
    }
  }

  /** `isBase64` accepts exactly the well-formed strings. */
  lemma IsBase64Iff(s: string)
    ensures IsBase64(s) <==> WellFormed(s)
  {
    RunAcceptsShape(s, [], []);
  }

  // ---------------------------------------------------------------------
  // Round trip.

  lemma TripleRoundTrip(b0: byte, b1: byte, b2: byte)
    ensures DecodeUnit([b0 / 4, (b0 % 4) * 16 + b1 / 16, (b1 % 16) * 4 + b2 / 64, b2 % 64]) == [b0, b1, b2]
  {
  }

  lemma PairRoundTrip(b0: byte, b1: byte)
    ensures DecodeUnit([b0 / 4, (b0 % 4) * 16 + b1 / 16, (b1 % 16) * 4]) == [b0, b1]
  {
  }

  lemma SingleRoundTrip(b0: byte)
    ensures DecodeUnit([b0 / 4, (b0 % 4) * 16]) == [b0]
  {
  }

  /** One step of the decoding loop over a data character that does not
      complete a unit. */
  lemma RunData(s: string, v: sextet, unit: seq<sextet>, out: seq<byte>)
    requires |s| > 0 && s[0] == CharOf(v) && |unit| < 3
    ensures Run(s, unit, out) == Run(s[1..], unit + [v], out)
  {
    ValueOfCharOf(v);
  }

  lemma RunSingle(b0: byte, out: seq<byte>)
    ensures Run(EncodeSingle(b0), [], out) == Some(out + [b0])
  {
    var s := EncodeSingle(b0);
    var v0, v1 := b0 / 4, (b0 % 4) * 16;
    RunData(s, v0, [], out);
    RunData(s[1..], v1, [v0], out);
    assert s[1..][1..] == [Pad, Pad];
    SingleRoundTrip(b0);
  }

  lemma RunPair(b0: byte, b1: byte, out: seq<byte>)
    ensures Run(EncodePair(b0, b1), [], out) == Some(out + [b0, b1])
  {
    var s := EncodePair(b0, b1);
    var v0, v1, v2 := b0 / 4, (b0 % 4) * 16 + b1 / 16, (b1 % 16) * 4;
    RunData(s, v0, [], out);
    RunData(s[1..], v1, [v0], out);
    RunData(s[1..][1..], v2, [v0, v1], out);
    var t := s[1..][1..][1..];
    assert t == [Pad];
    assert [] + [v0] == [v0] && [v0] + [v1] == [v0, v1] && [v0, v1] + [v2] == [v0, v1, v2];
    assert Run(t, [v0, v1, v2], out) == Flush([v0, v1, v2], out);
    PairRoundTrip(b0, b1);
  }

  /** A full unit of four characters yields its three bytes and leaves the
      loop at the start of the next unit. */
  lemma RunTriple(b0: byte, b1: byte, b2: byte, rest: string, out: seq<byte>)
    ensures Run(EncodeTriple(b0, b1, b2) + rest, [], out) == Run(rest, [], out + [b0, b1, b2])
  {
    var s := EncodeTriple(b0, b1, b2) + rest;
    var v0, v1, v2, v3 := b0 / 4, (b0 % 4) * 16 + b1 / 16, (b1 % 16) * 4 + b2 / 64, b2 % 64;
    RunData(s, v0, [], out);
    RunData(s[1..], v1, [v0], out);
    RunData(s[1..][1..], v2, [v0, v1], out);
    var t := s[1..][1..][1..];
    assert t[0] == CharOf(v3) && t[1..] == rest;
    assert [] + [v0] == [v0] && [v0] + [v1] == [v0, v1] && [v0, v1] + [v2] == [v0, v1, v2];
    ValueOfCharOf(v3);
    assert [v0, v1, v2] + [ValueOf(t[0])] == [v0, v1, v2, v3];
    assert Run(t, [v0, v1, v2], out) == Run(rest, [], out + DecodeUnit([v0, v1, v2, v3]));
    TripleRoundTrip(b0, b1, b2);
  }

  /** Decoding the encoding of `b` after `out` appends exactly `b`. */
  lemma {:induction false} RunEncode(b: seq<byte>, out: seq<byte>)
    ensures Run(Encode(b), [], out) == Some(out + b)
    decreases |b|
  {
    if |b| == 0 {
      assert out + b == out;
    } else if |b| == 1 {
      RunSingle(b[0], out);
      assert [b[0]] == b;
    } else if |b| == 2 {
      RunPair(b[0], b[1], out);
      assert [b[0], b[1]] == b;
    } else {
      RunTriple(b[0], b[1], b[2], Encode(b[3..]), out);
      RunEncode(b[3..], out + [b[0], b[1], b[2]]);
      assert out + [b[0], b[1], b[2]] + b[3..] == out + b;
    }
  }

  /** Decoding undoes encoding. */
  lemma DecodeEncode(b: seq<byte>)
    ensures Decode(Encode(b)) == Some(b)
  {
    RunEncode(b, []);
    assert [] + b == b;
  }

  /** The encoder's output always passes `isBase64`. */
  lemma EncodedIsBase64(b: seq<byte>)
    ensures IsBase64(Encode(b))
    ensures WellFormed(Encode(b))
  {
    DecodeEncode(b);
    IsBase64Iff(Encode(b));
  }

  /** Two byte strings with the same encoding are equal. */
  lemma EncodeInjective(a: seq<byte>, b: seq<byte>)
    requires Encode(a) == Encode(b)
    ensures a == b
  {
    DecodeEncode(a);
    DecodeEncode(b);
  }
}

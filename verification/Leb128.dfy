/** LEB128 numbers (section 7.6 of DWARF 5): what the byte strings mean, the readers of the CFI
    parser and of the interval checker, and the encoders they invert. */
module Leb128 {
  import opened Words

  /** `x << 7 * n`: shift amounts are always whole seven-bit groups here. */
  function Shl7(x: nat, n: nat): (r: nat)
    ensures r >= x
  {
    if n == 0 then x else 0x80 * Shl7(x, n - 1)
  }

  /** Number of bytes of the encoding that starts at `off`: up to and including the first byte
      whose continuation bit is clear. */
  function Length(bytes: seq<u8>, off: nat): (r: Option<nat>)
    ensures r.Some? ==> 1 <= r.value && off + r.value <= |bytes|
    decreases |bytes| - off
  {
    if off >= |bytes| then None
    else if bytes[off] < 0x80 then Some(1)
    else
      match Length(bytes, off + 1)
      case None => None
      case Some(n) => Some(n + 1)
  }

  /** The `n` seven-bit digits from `off` on, least significant first, as a number. */
  function Digits(bytes: seq<u8>, off: nat, n: nat): nat
    requires off + n <= |bytes|
    decreases n
  {
    if n == 0 then 0 else bytes[off] % 0x80 + 0x80 * Digits(bytes, off + 1, n - 1)
  }

  /** The same digits read as a two's complement number of 7 * n bits. */
  function SignedDigits(bytes: seq<u8>, off: nat, n: nat): int
    requires 0 < n && off + n <= |bytes|
  {
    Digits(bytes, off, n) - (if bytes[off + n - 1] % 0x80 >= 0x40 then Shl7(1, n) else 0)
  }

  datatype Decoded<+T> = Decoded(value: T, next: nat)

  /** Unsigned reading: at most ten bytes, value below 2^64. */
  ghost function Unsigned(bytes: seq<u8>, off: nat): Option<Decoded<u64>> {
    match Length(bytes, off)
    case None => None
    case Some(n) =>
      if n <= 10 && Digits(bytes, off, n) < TWO_64 then Some(Decoded(Digits(bytes, off, n), off + n)) else None
  }

  /** Signed reading: at most ten bytes, value in the range of int64_t. */
  ghost function Signed(bytes: seq<u8>, off: nat): Option<Decoded<i64>> {
    match Length(bytes, off)
    case None => None
    case Some(n) =>
      var v := SignedDigits(bytes, off, n);
      if n <= 10 && -TWO_63 <= v < TWO_63 then Some(Decoded(v, off + n)) else None
  }

  /** Signed reading without the range check: the value wraps around. */
  ghost function SignedWrapping(bytes: seq<u8>, off: nat): Option<Decoded<int>> {
    match Length(bytes, off)
    case None => None
    case Some(n) =>
      var v := SignedDigits(bytes, off, n);
      if n <= 9 then Some(Decoded(v, off + n))
      else if n == 10 then Some(Decoded(WrapI64(v), off + n))
      else None
  }

  /** Shifts by 56, 63 and 70 as products. */
  lemma {:induction false} ShlWords(x: nat)
    ensures Shl7(x, 8) == 0x100_0000_0000_0000 * x
    ensures Shl7(x, 9) == 0x8000_0000_0000_0000 * x
    ensures Shl7(x, 10) == 0x40_0000_0000_0000_0000 * x
  {
    assert Shl7(x, 1) == 0x80 * x;
    assert Shl7(x, 2) == 0x4000 * x;
    assert Shl7(x, 3) == 0x20_0000 * x;
    assert Shl7(x, 4) == 0x1000_0000 * x;
    assert Shl7(x, 5) == 0x8_0000_0000 * x;
    assert Shl7(x, 6) == 0x400_0000_0000 * x;
    assert Shl7(x, 7) == 0x2_0000_0000_0000 * x;
  }

  lemma {:induction false} DigitsSnoc(bytes: seq<u8>, off: nat, n: nat)
    requires off + n < |bytes|
    ensures Digits(bytes, off, n + 1) == Digits(bytes, off, n) + Shl7(bytes[off + n] % 0x80, n)
    decreases n
  {
    if n == 0 {
      assert Digits(bytes, off + 1, 0) == 0;
    } else {
      DigitsSnoc(bytes, off + 1, n - 1);
    }
  }

  lemma {:induction false} DigitsBound(bytes: seq<u8>, off: nat, n: nat)
    requires off + n <= |bytes|
    ensures Digits(bytes, off, n) < Shl7(1, n)
    decreases n
  {
    if n > 0 {
      DigitsBound(bytes, off + 1, n - 1);
    }
  }

  /** Digits beyond the first n only add. */
  lemma {:induction false} DigitsMonotone(bytes: seq<u8>, off: nat, n: nat, m: nat)
    requires n <= m && off + m <= |bytes|
    ensures Digits(bytes, off, n) <= Digits(bytes, off, m)
    decreases n
  {
    if n > 0 {
      DigitsMonotone(bytes, off + 1, n - 1, m - 1);
    }
  }

  /** The encoding that starts at `off` is `n` continuation bytes longer than what is left of it. */
  ghost predicate Continued(bytes: seq<u8>, off: nat, n: nat) {
    && off + n <= |bytes|
    && Length(bytes, off) == match Length(bytes, off + n) case None => None case Some(m) => Some(n + m)
  }

  /** A digit that passes the reader's overflow test keeps the sum below 2^64. */
  lemma {:induction false} DigitFits(bytes: seq<u8>, off: nat, n: nat)
    requires n <= 9 && off + n < |bytes|
    requires n == 9 ==> bytes[off + n] % 0x80 <= 1
    ensures Digits(bytes, off, n + 1) < TWO_64
  {
    ShlWords(1);
    DigitsBound(bytes, off, n + 1);
    if n < 9 {
      ShlMonotone(n + 1, 9);
    } else {
      DigitsBound(bytes, off, 9);
      DigitsSnoc(bytes, off, 9);
    }
  }

  /** A digit that fails it makes every reading fail. */
  lemma {:induction false} DigitOverflows(bytes: seq<u8>, off: nat, n: nat)
    requires Continued(bytes, off, n) && off + n < |bytes|
    requires n > 9 || (n == 9 && bytes[off + n] % 0x80 > 1)
    ensures Unsigned(bytes, off) == None
  {
    if n == 9 && Length(bytes, off).Some? {
      ShlWords(1);
      DigitsSnoc(bytes, off, 9);
      DigitsMonotone(bytes, off, 10, Length(bytes, off).value);
    }
  }

  /** `readInstrULEB` and the checker's `readULEB`, which are the same loop. */
  method ReadUnsigned(bytes: seq<u8>, start: nat) returns (r: Option<Decoded<u64>>)
    ensures r == Unsigned(bytes, start)
  {
    hide Digits, Shl7;
    if start >= |bytes| {
      return None;
    }
    var off, result, group := start, 0, 0;  // the shift is 7 * group
    DigitsNone(bytes, start);
    while off < |bytes|
      invariant off == start + group && group <= 10
      invariant Continued(bytes, start, group)
      invariant result == Digits(bytes, start, group) < TWO_64
    {
      var byte := bytes[off];
      off := off + 1;
      var bits := byte % 0x80;
      if group > 9 || (group == 9 && bits > 1) {
        DigitOverflows(bytes, start, group);
        return None;
      }
      DigitFits(bytes, start, group);
      DigitsSnoc(bytes, start, group);
      result := result + Shl7(bits, group);
      if byte < 0x80 {
        return Some(Decoded(result, off));
      }
      group := group + 1;
    }
    return None;
  }

  lemma {:induction false} ShlMonotone(a: nat, b: nat)
    requires a <= b
    ensures Shl7(1, a) <= Shl7(1, b)
    decreases b - a
  {
    if a < b {
      ShlMonotone(a, b - 1);
    }
  }

  /** Up to nine bytes: the digits with the sign extension of the last byte are the value. */
  lemma {:induction false} ShortSigned(bytes: seq<u8>, off: nat, n: nat)
    requires 0 < n <= 9 && off + n <= |bytes|
    ensures -TWO_63 <= SignedDigits(bytes, off, n) < TWO_63
    ensures Digits(bytes, off, n) < TWO_63
  {
    ShlWords(1);
    DigitsBound(bytes, off, n);
    ShlMonotone(n, 9);
  }

  /** Ten bytes: the nine low digits and the tenth as a signed digit of weight 2^63. */
  lemma {:induction false} TenSigned(bytes: seq<u8>, off: nat, low: nat, high: int)
    requires off + 10 <= |bytes| && low == Digits(bytes, off, 9)
    requires var bits: int := bytes[off + 9] % 0x80; high == if bits >= 0x40 then bits - 0x80 else bits
    ensures low < TWO_63 && SignedDigits(bytes, off, 10) == low + 0x8000_0000_0000_0000 * high
  {
    ShlWords(1);
    ShlWords(bytes[off + 9] % 0x80);
    DigitsBound(bytes, off, 9);
    DigitsSnoc(bytes, off, 9);
  }

  lemma {:induction false} HalfWords(low: nat, high: int)
    requires low < TWO_63
    ensures WrapI64(low + 0x8000_0000_0000_0000 * high) == if high % 2 == 0 then low else low - TWO_63
  {
    var h := high / 2;
    assert low + 0x8000_0000_0000_0000 * high == h * TWO_64 + (low + 0x8000_0000_0000_0000 * (high % 2));
  }

  /** A digit shifted left by 7 * group into an int64_t: of the tenth only the lowest bit
      survives, as the sign bit. */
  function ShiftedIn(bits: u8, group: nat): int {
    if group <= 8 then Shl7(bits, group) else if bits % 2 == 0 then 0 else -TWO_63
  }

  /** The sign extension after a final byte. */
  function SignExtended(result: int, bits: u8, group: nat): int {
    if group <= 9 && bits >= 0x40 then result - Shl7(1, group) else result
  }

  /** The value a final byte completes, as the two signed readers compute it. */
  function Completed(bytes: seq<u8>, off: nat, n: nat): int
    requires off + n < |bytes|
  {
    var bits := bytes[off + n] % 0x80;
    SignExtended(Digits(bytes, off, n) + ShiftedIn(bits, n), bits, n + 1)
  }

  lemma {:induction false} CompletedShort(bytes: seq<u8>, off: nat, n: nat)
    requires n < 9 && off + n < |bytes|
    ensures Digits(bytes, off, n) + ShiftedIn(bytes[off + n] % 0x80, n) == Digits(bytes, off, n + 1)
    ensures Completed(bytes, off, n) == SignedDigits(bytes, off, n + 1)
  {
    DigitsSnoc(bytes, off, n);
  }

  lemma {:induction false} CompletedLong(bytes: seq<u8>, off: nat)
    requires off + 10 <= |bytes|
    ensures Completed(bytes, off, 9) == WrapI64(SignedDigits(bytes, off, 10))
  {
    hide Digits, SignedDigits, WrapI64, Shl7;
    var bits: int := bytes[off + 9] % 0x80;
    var high := if bits >= 0x40 then bits - 0x80 else bits;
    TenSigned(bytes, off, Digits(bytes, off, 9), high);
    HalfWords(Digits(bytes, off, 9), high);
  }

  /** The tenth byte is acceptable exactly when it is all zeros or all ones. */
  lemma {:induction false} TenthByte(bytes: seq<u8>, off: nat)
    requires off + 10 <= |bytes|
    ensures var bits := bytes[off + 9] % 0x80;
            -TWO_63 <= SignedDigits(bytes, off, 10) < TWO_63 <==> bits == 0 || bits == 0x7f
    ensures var bits := bytes[off + 9] % 0x80;
            bits == 0 || bits == 0x7f ==> Completed(bytes, off, 9) == SignedDigits(bytes, off, 10)
  {
    hide Digits, SignedDigits, Shl7;
    var bits: int := bytes[off + 9] % 0x80;
    TenSigned(bytes, off, Digits(bytes, off, 9), if bits >= 0x40 then bits - 0x80 else bits);
  }

  /** One round of either signed reader. */
  lemma {:induction false} SignedRound(bytes: seq<u8>, off: nat, n: nat)
    requires n <= 9 && off + n < |bytes| && Continued(bytes, off, n)
    ensures var byte, bits := bytes[off + n], bytes[off + n] % 0x80;
            && (n == 9 && bits != 0 && bits != 0x7f ==> Signed(bytes, off) == None)
            && (byte < 0x80 && !(n == 9 && bits != 0 && bits != 0x7f) ==>
                  && -TWO_63 <= Completed(bytes, off, n) < TWO_63
                  && Signed(bytes, off) == Some(Decoded(Completed(bytes, off, n), off + n + 1)))
            && (byte < 0x80 ==> SignedWrapping(bytes, off) == Some(Decoded(Completed(bytes, off, n), off + n + 1)))
            && (byte >= 0x80 ==> Continued(bytes, off, n + 1))
            && (byte >= 0x80 && n == 9 ==> SignedWrapping(bytes, off) == None)
            && (n < 9 ==> Digits(bytes, off, n) + ShiftedIn(bits, n) == Digits(bytes, off, n + 1))
  {
    hide Digits, Shl7, ShiftedIn, Completed, SignedDigits, WrapI64;
    if n < 9 {
      CompletedShort(bytes, off, n);
      ShortSigned(bytes, off, n + 1);
    } else {
      TenthByte(bytes, off);
      CompletedLong(bytes, off);
    }
  }

  /** `readInstrSLEB` of the parser: the tenth byte is checked before it is shifted in. */
  method ReadSigned(bytes: seq<u8>, start: nat) returns (r: Option<Decoded<i64>>)
    ensures r == Signed(bytes, start)
  {
    hide Digits, Length, Shl7, ShiftedIn;
    if start >= |bytes| {
      assert Length(bytes, start) == None by { LengthPastEnd(bytes, start); }
      return None;
    }
    var off, result, group := start, 0, 0;  // the shift is 7 * group
    DigitsNone(bytes, start);
    while off < |bytes|
      invariant off == start + group && group <= 10
      invariant Continued(bytes, start, group)
      invariant group <= 9 ==> result == Digits(bytes, start, group)
    {
      if group <= 9 {
        SignedRound(bytes, start, group);
      }
      var byte := bytes[off];
      off := off + 1;
      var bits := byte % 0x80;
      if group > 9 || (group == 9 && bits != 0 && bits != 0x7f) {
        return None;
      }
      result := result + ShiftedIn(bits, group);
      group := group + 1;
      if byte < 0x80 {
        return Some(Decoded(SignExtended(result, bits, group), off));
      }
    }
    LengthPastEnd(bytes, off);
    return None;
  }

  lemma LengthPastEnd(bytes: seq<u8>, off: nat)
    requires off >= |bytes|
    ensures Length(bytes, off) == None
  {
  }

  lemma DigitsNone(bytes: seq<u8>, off: nat)
    requires off <= |bytes|
    ensures Digits(bytes, off, 0) == 0 && Continued(bytes, off, 0)
  {
  }

  /** `readSLEB` of the checker: no test on the tenth byte, and a tenth continuation byte fails
      at once. */
  method ReadSignedWrapping(bytes: seq<u8>, start: nat) returns (r: Option<Decoded<int>>)
    ensures r == SignedWrapping(bytes, start)
  {
    hide Digits, Length, Shl7, ShiftedIn;
    var off, result, group := start, 0, 0;
    if start <= |bytes| {
      DigitsNone(bytes, start);
    } else {
      LengthPastEnd(bytes, start);
    }
    while off < |bytes|
      invariant off == start + group && group <= 9 && (start <= |bytes| ==> off <= |bytes|)
      invariant off <= |bytes| ==> Continued(bytes, start, group)
      invariant off <= |bytes| ==> result == Digits(bytes, start, group)
    {
      SignedRound(bytes, start, group);
      var byte := bytes[off];
      off := off + 1;
      var bits := byte % 0x80;
      result := result + ShiftedIn(bits, group);
      group := group + 1;
      if byte < 0x80 {
        return Some(Decoded(SignExtended(result, bits, group), off));
      }
      if group >= 10 {
        return None;
      }
    }
    LengthPastEnd(bytes, off);
    return None;
  }

  /** Wherever the parser reads a number, the checker's readers read a number of the same
      length; where both read it as signed, it is the same number. */
  lemma {:induction false} CheckerReadsWhatParserReads(bytes: seq<u8>, off: nat)
    ensures Signed(bytes, off).Some? ==> SignedWrapping(bytes, off) == Signed(bytes, off)
    ensures Unsigned(bytes, off).Some? ==>
              SignedWrapping(bytes, off).Some? && SignedWrapping(bytes, off).value.next == Unsigned(bytes, off).value.next
  {
    match Length(bytes, off)
    case None =>
    case Some(n) =>
      if n <= 9 {
        ShortSigned(bytes, off, n);
      } else if n == 10 {
        TenthByte(bytes, off);
        CompletedLong(bytes, off);
      }
  }

  /** A successful read consumes between one and ten bytes, all inside the string, and yields a
      64-bit number; a failed one had no terminating byte among the next ten or a value that
      does not fit. */
  lemma {:induction false} ReadExtent(bytes: seq<u8>, off: nat)
    ensures match Unsigned(bytes, off)
            case Some(Decoded(v, next)) => off < next <= Min(off + 10, |bytes|) && 0 <= v < TWO_64
            case None =>
              (forall k | off <= k < Min(off + 10, |bytes|) :: bytes[k] >= 0x80)
              || (exists n: nat :: 0 < n <= 10 && Length(bytes, off) == Some(n) && Digits(bytes, off, n) >= TWO_64)
    ensures match Signed(bytes, off)
            case Some(Decoded(v, next)) => off < next <= Min(off + 10, |bytes|) && -TWO_63 <= v < TWO_63
            case None => true
  {
    TerminatorOrNone(bytes, off);
  }

  lemma {:induction false} TerminatorOrNone(bytes: seq<u8>, off: nat)
    ensures match Length(bytes, off)
            case None => forall k | off <= k < |bytes| :: bytes[k] >= 0x80
            case Some(n) => bytes[off + n - 1] < 0x80 && forall k | off <= k < off + n - 1 :: bytes[k] >= 0x80
    decreases |bytes| - off
  {
    if off < |bytes| && bytes[off] >= 0x80 {
      TerminatorOrNone(bytes, off + 1);
    }
  }

  /** The encoders of appendix C of DWARF 5. */
  function EncodeUnsigned(v: nat): (e: seq<u8>)
    ensures |e| >= 1
  {
    if v < 0x80 then [v] else [v % 0x80 + 0x80] + EncodeUnsigned(v / 0x80)
  }

  function EncodeSigned(v: int): (e: seq<u8>)
    ensures |e| >= 1
    decreases if v >= 0 then v else -v
  {
    if -0x40 <= v < 0x40 then [v % 0x80] else [v % 0x80 + 0x80] + EncodeSigned(v / 0x80)
  }

  /** `bytes` holds the string `e` at `off`. */
  predicate HasAt(bytes: seq<u8>, off: nat, e: seq<u8>) {
    off + |e| <= |bytes| && bytes[off..off + |e|] == e
  }

  lemma HasAtSplit(bytes: seq<u8>, off: nat, a: seq<u8>, b: seq<u8>)
    requires HasAt(bytes, off, a + b)
    ensures HasAt(bytes, off, a) && HasAt(bytes, off + |a|, b)
  {
    var e := bytes[off..off + |a + b|];
    assert bytes[off..off + |a|] == e[..|a|] == a;
    assert bytes[off + |a|..off + |a| + |b|] == e[|a|..] == b;
  }

  lemma {:induction false} HasAtTail(bytes: seq<u8>, off: nat, head: u8, tail: seq<u8>)
    requires HasAt(bytes, off, [head] + tail)
    ensures bytes[off] == head && HasAt(bytes, off + 1, tail)
  {
    var e := [head] + tail;
    assert bytes[off] == bytes[off..off + |e|][0];
    assert bytes[off + 1..off + 1 + |tail|] == bytes[off..off + |e|][1..];
  }

  lemma {:induction false} EncodedUnsignedDigits(bytes: seq<u8>, off: nat, v: nat)
    requires HasAt(bytes, off, EncodeUnsigned(v))
    ensures Length(bytes, off) == Some(|EncodeUnsigned(v)|)
    ensures Digits(bytes, off, |EncodeUnsigned(v)|) == v
    decreases v
  {
    if v < 0x80 {
      assert bytes[off] == bytes[off..off + 1][0];
      assert Digits(bytes, off + 1, 0) == 0;
    } else {
      HasAtTail(bytes, off, v % 0x80 + 0x80, EncodeUnsigned(v / 0x80));
      EncodedUnsignedDigits(bytes, off + 1, v / 0x80);
    }
  }

  lemma {:induction false} SignedDigitsCons(bytes: seq<u8>, off: nat, n: nat)
    requires 0 < n && off + 1 + n <= |bytes|
    ensures SignedDigits(bytes, off, n + 1) == bytes[off] % 0x80 + 0x80 * SignedDigits(bytes, off + 1, n)
  {
  }

  lemma {:induction false} EncodedSignedDigits(bytes: seq<u8>, off: nat, v: int)
    requires HasAt(bytes, off, EncodeSigned(v))
    ensures Length(bytes, off) == Some(|EncodeSigned(v)|)
    ensures SignedDigits(bytes, off, |EncodeSigned(v)|) == v
    decreases if v >= 0 then v else -v
  {
    if -0x40 <= v < 0x40 {
      assert bytes[off] == bytes[off..off + 1][0];
      assert Digits(bytes, off + 1, 0) == 0;
    } else {
      var rest := EncodeSigned(v / 0x80);
      var m := |rest|;
      HasAtTail(bytes, off, v % 0x80 + 0x80, rest);
      EncodedSignedDigits(bytes, off + 1, v / 0x80);
      SignedDigitsCons(bytes, off, m);
    }
  }

  lemma {:induction false} EncodedUnsignedSize(v: nat, n: nat)
    requires 0 < n && v < Shl7(1, n)
    ensures |EncodeUnsigned(v)| <= n
    decreases n
  {
    if v >= 0x80 {
      EncodedUnsignedSize(v / 0x80, n - 1);
    }
  }

  lemma {:induction false} EncodedSignedSize(v: int, n: nat)
    requires 0 < n && 0 <= 2 * v + Shl7(1, n) && 2 * v < Shl7(1, n)
    ensures |EncodeSigned(v)| <= n
    decreases n
  {
    if !(-0x40 <= v < 0x40) {
      EncodedSignedSize(v / 0x80, n - 1);
    }
  }

  /** Round trip: every 64-bit value's encoding, wherever it stands, decodes to that value and
      is consumed exactly. */
  lemma {:induction false} UnsignedRoundTrip(before: seq<u8>, v: u64, after: seq<u8>)
    ensures var e := EncodeUnsigned(v);
            Unsigned(before + e + after, |before|) == Some(Decoded(v, |before| + |e|))
  {
    ShlWords(1);
    EncodedUnsignedDigits(before + EncodeUnsigned(v) + after, |before|, v);
    EncodedUnsignedSize(v, 10);
  }

  lemma {:induction false} SignedRoundTrip(before: seq<u8>, v: i64, after: seq<u8>)
    ensures var e := EncodeSigned(v);
            && Signed(before + e + after, |before|) == Some(Decoded(v, |before| + |e|))
            && SignedWrapping(before + e + after, |before|) == Some(Decoded(v, |before| + |e|))
  {
    ShlWords(1);
    EncodedSignedDigits(before + EncodeSigned(v) + after, |before|, v);
    EncodedSignedSize(v, 10);
    CheckerReadsWhatParserReads(before + EncodeSigned(v) + after, |before|);
  }
}

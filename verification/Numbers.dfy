/**
 The number parsers strtoul, strtoull and strtol and the number printer __ltostr
 (lib/strtoul.c, lib/strtoull.c, lib/strtol.c, lib/__ltostr.c), with 64-bit longs.

 A string is a sequence of bytes whose last byte is NUL; an earlier NUL ends it too.
 Pointers into it are indices.
 */
module Numbers {
  import opened Bits
  import opened Common

  /** What a call does to errno. */
  datatype Errno = Untouched | Cleared | Einval | Erange

  const WORD: int := 0x1_0000_0000_0000_0000       // ULONG_MAX + 1
  const ABS_LONG_MIN: int := 0x8000_0000_0000_0000

  predicate Terminated(s: seq<Byte>) { |s| > 0 && s[|s| - 1] == 0 }

  // ----- character classes -----

  predicate IsSpace(c: Byte) { 9 <= c < 14 || c == 32 }

  predicate IsXDigit(c: Byte) { 48 <= c < 58 || 65 <= c < 71 || 97 <= c < 103 }

  predicate IsAlnum(c: Byte) { 48 <= c < 58 || 65 <= c < 91 || 97 <= c < 123 }

  /** The digit a character stands for, as the unsigned char the parsers compute. */
  function DigitOf(c: Byte): (d: Byte)
  {
    if c >= 97 then c - 97 + 10
    else if c >= 65 then c - 65 + 10
    else if c <= 57 then (c - 48) % 256
    else 0xFF
  }

  // ----- what a number string means -----

  /** The value of a digit string, most significant digit first. */
  function Eval(t: seq<Byte>, base: nat): nat
  {
    if t == [] then 0 else Eval(t[..|t| - 1], base) * base + DigitOf(t[|t| - 1])
  }

  function SkipSpace(s: seq<Byte>, i: nat): (j: nat)
    requires Terminated(s) && i < |s|
    ensures i <= j < |s| && !IsSpace(s[j])
    ensures forall k :: i <= k < j ==> IsSpace(s[k])
    decreases |s| - i
  {
    if IsSpace(s[i]) then SkipSpace(s, i + 1) else i
  }

  /** Where the digits of the base that start at i end. */
  function DigitsEnd(s: seq<Byte>, i: nat, base: nat): (j: nat)
    requires Terminated(s) && i < |s|
    ensures i <= j < |s|
    ensures forall k :: i <= k < j ==> s[k] != 0 && DigitOf(s[k]) < base
    ensures s[j] == 0 || DigitOf(s[j]) >= base
    decreases |s| - i
  {
    if s[i] != 0 && DigitOf(s[i]) < base then DigitsEnd(s, i + 1, base) else i
  }

  /** Where the optional sign ends, where the digits start, and the base they are in. */
  datatype Prefix = BadBase | Prefix(neg: bool, orig: nat, start: nat, base: int)

  predicate HexPrefix(s: seq<Byte>, o: nat)
    requires Terminated(s) && o < |s| && s[o] == 48
  {
    (s[o + 1] == 120 || s[o + 1] == 88) && IsXDigit(s[o + 2])
  }

  function ScanPrefix(s: seq<Byte>, ptr: nat, base: int): (p: Prefix)
    requires Terminated(s) && ptr < |s|
    ensures p.Prefix? ==> ptr <= p.orig <= p.start < |s| && 2 <= p.base <= 36
  {
    var i := SkipSpace(s, ptr);
    var neg := s[i] == 45;
    var o := if s[i] == 45 || s[i] == 43 then i + 1 else i;
    if (base == 16 || base == 0) && s[o] == 48 then
      if HexPrefix(s, o) then Prefix(neg, o, o + 2, 16) else Prefix(neg, o, o, if base == 0 then 8 else 16)
    else if base == 0 then Prefix(neg, o, o, 10)
    else if 2 <= base <= 36 then Prefix(neg, o, o, base)
    else BadBase
  }

  /** end is None when *endptr is not written. */
  datatype Parsed = Parsed(value: int, end: Option<nat>, errno: Errno)

  /** What strtoul and strtoull compute: in C terms, modulo 2^64, with saturation. */
  function ParseUnsigned(s: seq<Byte>, ptr: nat, base: int): Parsed
    requires Terminated(s) && ptr < |s|
  {
    var p := ScanPrefix(s, ptr, base);
    if p.BadBase? then Parsed(0, None, Einval)
    else
      var e := DigitsEnd(s, p.start, p.base);
      var v := Eval(s[p.start..e], p.base);
      if e == p.orig then Parsed(0, Some(ptr), Einval)
      else if v >= WORD then Parsed(WORD - 1, Some(e), Erange)
      else Parsed(if p.neg && v > 0 then WORD - v else v, Some(e), Untouched)
  }

  // ----- the scanning both parsers share -----

  method Scan(s: seq<Byte>, ptr: nat, base0: int) returns (bad: bool, neg: bool, orig: nat, nptr: nat, base: int)
    requires Terminated(s) && ptr < |s|
    requires -0x8000_0000 <= base0 < 0x8000_0000
    ensures bad <==> ScanPrefix(s, ptr, base0).BadBase?
    ensures !bad ==> ScanPrefix(s, ptr, base0) == Prefix(neg, orig, nptr, base)
  {
    nptr, neg, base := ptr, false, base0;
    while IsSpace(s[nptr])
      invariant ptr <= nptr < |s| && SkipSpace(s, nptr) == SkipSpace(s, ptr)
      decreases |s| - nptr
    {
      nptr := nptr + 1;
    }
    if s[nptr] == 45 { neg, nptr := true, nptr + 1; }
    else if s[nptr] == 43 { nptr := nptr + 1; }
    orig := nptr;
    var skip0x := base == 16 && s[nptr] == 48;
    if !skip0x {
      if base != 0 {
        var b := (base - 2) % 0x1_0000_0000;
        if b > 34 { return true, neg, orig, nptr, base; }
      } else if s[nptr] == 48 {
        base, skip0x := 8, true;
      } else {
        base := 10;
      }
    }
    if skip0x {
      if (s[nptr + 1] == 120 || s[nptr + 1] == 88) && IsXDigit(s[nptr + 2]) {
        nptr, base := nptr + 2, 16;
      }
    }
    bad := false;
  }

  /** One more digit: the exact value if it was exact before, and still too large if it was that. */
  lemma NextDigit(s: seq<Byte>, start: nat, j: nat, base: nat, v: int, overflow: bool)
    requires start <= j < |s| && base >= 2
    requires overflow <==> Eval(s[start..j], base) >= WORD
    requires !overflow ==> v == Eval(s[start..j], base)
    ensures overflow ==> Eval(s[start..j + 1], base) >= WORD
    ensures !overflow ==> Eval(s[start..j + 1], base) == v * base + DigitOf(s[j])
  {
    var t := s[start..j + 1];
    assert t[..|t| - 1] == s[start..j];
    MulMono(2, base, Eval(s[start..j], base));
  }

  /** Splitting a multiplication at the low byte loses nothing. */
  lemma SplitByte(v: int, base: int, c: nat, x: int, w: int)
    requires 2 <= base <= 36 && c < base
    requires x == (v % 256) * base + c && w == (v / 256) * base + x / 256
    ensures w * 256 + x % 256 == v * base + c
    ensures 0 <= x / 256 < base && (v >= 0 ==> w >= 0)
  {
    SplitParts(v / 256, v % 256, base, c, x);
    assert v == (v / 256) * 256 + v % 256;
    if v >= 0 {
      MulMono(0, v / 256, base);
    }
  }

  lemma SplitParts(high: int, low: nat, base: int, c: nat, x: int)
    requires low < 256 && 2 <= base && c < base
    requires x == low * base + c
    ensures (high * base + x / 256) * 256 + x % 256 == (high * 256 + low) * base + c
    ensures 0 <= x / 256 < base
  {
    assert (high * 256 + low) * base == (high * base) * 256 + low * base;
    MulMono(low, 255, base);
    MulMono(0, low, base);
  }

  lemma NoDigits(s: seq<Byte>, start: nat, e: nat, base: nat)
    requires start <= e <= |s|
    ensures start == e ==> Eval(s[start..e], base) == 0
  {
  }

  lemma NegateWord(v: nat)
    requires v < WORD
    ensures (0 - v) % WORD == (WORD - v) % WORD == if v > 0 then WORD - v else 0
    ensures (v - WORD) % WORD == v
  {
  }

  // ----- strtoul -----

  method StrToUL(s: seq<Byte>, ptr: nat, base0: int) returns (r: Parsed)
    requires Terminated(s) && ptr < |s|
    requires -0x8000_0000 <= base0 < 0x8000_0000
    ensures r == ParseUnsigned(s, ptr, base0)
  {
    var bad, neg, orig, start, base := Scan(s, ptr, base0);
    if bad { return Parsed(0, None, Einval); }
    var v, overflow, nptr := ScanDigits(s, start, base);
    var errno := Untouched;
    var end := nptr;
    NoDigits(s, start, nptr, base);
    if nptr == orig { end, errno, v := ptr, Einval, 0; }
    if overflow { return Parsed(WORD - 1, Some(end), Erange); }
    NegateWord(v);
    r := Parsed(if neg then (0 - v) % WORD else v, Some(end), errno);
  }

  /** The digit loop of strtoul. */
  method ScanDigits(s: seq<Byte>, start: nat, base: int) returns (v: int, overflow: bool, nptr: nat)
    requires Terminated(s) && start < |s| && 2 <= base <= 36
    ensures nptr == DigitsEnd(s, start, base)
    ensures overflow <==> Eval(s[start..nptr], base) >= WORD
    ensures 0 <= v < WORD
    ensures !overflow ==> v == Eval(s[start..nptr], base)
  {
    v, overflow, nptr := 0, false, start;
    while s[nptr] != 0
      invariant start <= nptr < |s|
      invariant DigitsEnd(s, nptr, base) == DigitsEnd(s, start, base)
      invariant 0 <= v < WORD
      invariant overflow <==> Eval(s[start..nptr], base) >= WORD
      invariant !overflow ==> v == Eval(s[start..nptr], base)
      decreases |s| - nptr
    {
      var c := DigitOf(s[nptr]);
      if c >= base { break; }
      NextDigit(s, start, nptr, base, v, overflow);
      v, overflow := PushDigit(v, overflow, base, c);
      nptr := nptr + 1;
    }
  }

  /** The loop body: overflow is found exactly when the digit makes the value too large. */
  method PushDigit(v: int, overflow: bool, base: int, c: nat) returns (v': int, overflow': bool)
    requires 0 <= v < WORD && 2 <= base <= 36 && c < base
    ensures 0 <= v' < WORD
    ensures overflow' <==> overflow || v * base + c >= WORD
    ensures v * base + c < WORD ==> v' == v * base + c
  {
    var x := (v % 256) * base + c;
    var w := (v / 256) * base + x / 256;
    SplitByte(v, base, c, x, w);
    OverflowTest(w, x % 256, v * base + c);
    overflow' := overflow;
    if w > (WORD - 1) / 256 { overflow' := true; }
    v' := (w * 256) % WORD + x % 256;
  }

  lemma OverflowTest(w: int, low: int, total: int)
    requires total == w * 256 + low && 0 <= low < 256 && 0 <= w
    ensures w > (WORD - 1) / 256 <==> total >= WORD
    ensures total < WORD ==> (w * 256) % WORD + low == total
    ensures 0 <= (w * 256) % WORD + low < WORD
  {
    assert (w * 256) % WORD == (w % (WORD / 256)) * 256;
  }

  // ----- strtoull: the same loop on a signed accumulator -----

  /** The two's complement reading of a word, and back. */
  function ToSigned(u: int): int
    requires 0 <= u < WORD
  {
    if u < ABS_LONG_MIN then u else u - WORD
  }

  function ToUnsigned(v: int): int
    requires -ABS_LONG_MIN <= v < ABS_LONG_MIN
  {
    if v < 0 then v + WORD else v
  }

  method StrToULL(s: seq<Byte>, ptr: nat, base0: int) returns (r: Parsed)
    requires Terminated(s) && ptr < |s|
    requires -0x8000_0000 <= base0 < 0x8000_0000
    ensures r == ParseUnsigned(s, ptr, base0)
  {
    var bad, neg, orig, start, base := Scan(s, ptr, base0);
    if bad { return Parsed(0, None, Einval); }
    var v, overflow, nptr := ScanDigitsSigned(s, start, base);
    var errno := Untouched;
    var end := nptr;
    NoDigits(s, start, nptr, base);
    if nptr == orig { end, errno, v := ptr, Einval, 0; }
    if overflow { return Parsed(WORD - 1, Some(end), Erange); }
    NegateWord(ToUnsigned(v));
    r := Parsed(if neg then (0 - v) % WORD else v % WORD, Some(end), errno);
  }

  method ScanDigitsSigned(s: seq<Byte>, start: nat, base: int) returns (v: int, overflow: bool, nptr: nat)
    requires Terminated(s) && start < |s| && 2 <= base <= 36
    ensures nptr == DigitsEnd(s, start, base)
    ensures overflow <==> Eval(s[start..nptr], base) >= WORD
    ensures -ABS_LONG_MIN <= v < ABS_LONG_MIN
    ensures !overflow ==> ToUnsigned(v) == Eval(s[start..nptr], base)
  {
    v, overflow, nptr := 0, false, start;
    while s[nptr] != 0
      invariant start <= nptr < |s|
      invariant DigitsEnd(s, nptr, base) == DigitsEnd(s, start, base)
      invariant -ABS_LONG_MIN <= v < ABS_LONG_MIN
      invariant overflow <==> Eval(s[start..nptr], base) >= WORD
      invariant !overflow ==> ToUnsigned(v) == Eval(s[start..nptr], base)
      decreases |s| - nptr
    {
      var c := DigitOf(s[nptr]);
      if c >= base { break; }
      NextDigit(s, start, nptr, base, ToUnsigned(v), overflow);
      v, overflow := PushDigitSigned(v, overflow, base, c);
      nptr := nptr + 1;
    }
  }

  /**
   v >> 8 is an arithmetic shift (division rounding down, as `/` is here for a positive
   divisor).  On a negative v it makes w wrap to a value far above ULLONG_MAX >> 8, so the
   overflow that a value of 2^63 or more times a base of 2 or more means is still found.
   */
  method PushDigitSigned(v: int, overflow: bool, base: int, c: nat) returns (v': int, overflow': bool)
    requires -ABS_LONG_MIN <= v < ABS_LONG_MIN && 2 <= base <= 36 && c < base
    ensures -ABS_LONG_MIN <= v' < ABS_LONG_MIN
    ensures overflow' <==> overflow || ToUnsigned(v) * base + c >= WORD
    ensures ToUnsigned(v) * base + c < WORD ==> ToUnsigned(v') == ToUnsigned(v) * base + c
  {
    var x := (v % 256) * base + c;
    var exact := (v / 256) * base + x / 256;
    SplitByte(v, base, c, x, exact);
    if v < 0 {
      NegativeOverflows(v, base, c, x, exact);
    } else {
      ProductRange(v, base, c, exact);
    }
    var w := exact % WORD;
    overflow' := overflow;
    if w > (WORD - 1) / 256 { overflow' := true; }
    OverflowTest(w, x % 256, w * 256 + x % 256);
    v' := ToSigned((w * 256) % WORD + x % 256);
  }

  lemma ProductRange(v: int, base: int, c: nat, w: int)
    requires 0 <= v < WORD && 2 <= base <= 36 && c < base
    requires 0 <= v * base + c - w * 256 < 256
    ensures 0 <= w < WORD
  {
    MulMono(v, WORD - 1, base);
    MulMono(0, v, base);
  }

  lemma NegativeOverflows(v: int, base: int, c: nat, x: int, w: int)
    requires -ABS_LONG_MIN <= v < 0 && 2 <= base <= 36 && c < base
    requires w == (v / 256) * base + x / 256 && 0 <= x / 256 < base
    ensures w % WORD > (WORD - 1) / 256
    ensures (v + WORD) * base + c >= WORD
  {
    MulMono(v / 256, -1, base);
    MulMono(-ABS_LONG_MIN / 256, v / 256, base);
    assert -WORD <= w < 0;
    MulMono(ABS_LONG_MIN, v + WORD, base);
  }

  // ----- strtol -----

  /** The value the digits and the sign mean, clamped to the range of long. */
  function ParseSigned(s: seq<Byte>, ptr: nat, base: int): Parsed
    requires Terminated(s) && ptr < |s|
  {
    var p := ScanPrefix(s, ptr, base);
    if p.BadBase? then Parsed(0, None, Einval)
    else
      var e := DigitsEnd(s, p.start, p.base);
      var v: int := Eval(s[p.start..e], p.base);
      var value: int := if p.neg then 0 - v else v;
      if e == p.orig then Parsed(0, Some(ptr), Einval)
      else if value < -ABS_LONG_MIN then Parsed(-ABS_LONG_MIN, Some(e), Erange)
      else if value >= ABS_LONG_MIN then Parsed(ABS_LONG_MIN - 1, Some(e), Erange)
      else Parsed(value, Some(e), if value == -ABS_LONG_MIN then Cleared else Untouched)
  }

  /** The end pointer is written exactly if the base is one the parser knows; otherwise strtol reads an unset one. */
  lemma EndWritten(s: seq<Byte>, ptr: nat, base: int)
    requires Terminated(s) && ptr < |s|
    ensures ParseSigned(s, ptr, base).end.Some? <==> base == 0 || 2 <= base <= 36
    ensures ParseUnsigned(s, ptr, base).end.Some? <==> base == 0 || 2 <= base <= 36
  {
  }

  method StrToL(s: seq<Byte>, ptr: nat, base: int) returns (r: Parsed)
    requires Terminated(s) && ptr < |s|
    requires -0x8000_0000 <= base < 0x8000_0000
    ensures r == ParseSigned(s, ptr, base)
  {
    var neg, nptr := SkipMinus(s, ptr);
    var u := StrToUL(s, nptr, base);
    ClampAgrees(s, ptr, base, neg, nptr, u);
    var end := if u.end == Some(nptr) then Some(ptr) else u.end;
    var v := u.value;
    if v >= ABS_LONG_MIN {
      if v == ABS_LONG_MIN && neg {
        return Parsed(ToSigned(v), end, Cleared);
      }
      return Parsed(if neg then -ABS_LONG_MIN else ABS_LONG_MIN - 1, end, Erange);
    }
    r := Parsed(if neg then -v else v, end, u.errno);
  }

  method SkipMinus(s: seq<Byte>, ptr: nat) returns (neg: bool, nptr: nat)
    requires Terminated(s) && ptr < |s|
    ensures nptr < |s| && CallSite(s, ptr, neg, nptr)
  {
    nptr, neg := ptr, false;
    while IsSpace(s[nptr])
      invariant ptr <= nptr < |s| && SkipSpace(s, nptr) == SkipSpace(s, ptr)
      decreases |s| - nptr
    {
      nptr := nptr + 1;
    }
    if s[nptr] == 45 && IsAlnum(s[nptr + 1]) { neg, nptr := true, nptr + 1; }
  }

  /** Where strtol calls strtoul, and whether it has taken a sign by then. */
  predicate CallSite(s: seq<Byte>, ptr: nat, neg: bool, nptr: nat)
    requires Terminated(s) && ptr < |s|
  {
    var i := SkipSpace(s, ptr);
    neg == (s[i] == 45 && IsAlnum(s[i + 1])) && nptr == if neg then i + 1 else i
  }

  /** The clamping that strtol applies to the result of strtoul yields the clamped value. */
  lemma ClampAgrees(s: seq<Byte>, ptr: nat, base: int, neg: bool, nptr: nat, u: Parsed)
    requires Terminated(s) && ptr < |s| && nptr < |s|
    requires CallSite(s, ptr, neg, nptr) && u == ParseUnsigned(s, nptr, base)
    ensures var end := if u.end == Some(nptr) then Some(ptr) else u.end;
            0 <= u.value < WORD
            && ParseSigned(s, ptr, base) ==
               if u.value >= ABS_LONG_MIN then
                 if u.value == ABS_LONG_MIN && neg then Parsed(-ABS_LONG_MIN, end, Cleared)
                 else Parsed(if neg then -ABS_LONG_MIN else ABS_LONG_MIN - 1, end, Erange)
               else Parsed(if neg then -u.value else u.value, end, u.errno)
  {
    SignSkipped(s, ptr, base, neg, nptr);
    var p, p' := ScanPrefix(s, ptr, base), ScanPrefix(s, nptr, base);
    if p.Prefix? {
      var e := DigitsEnd(s, p.start, p.base);
      assert p'.start == p.start && p'.base == p.base && p'.orig == p.orig;
      assert e != p.orig ==> p.neg == neg && !p'.neg && e != nptr;
    }
  }

  /** strtoul finds the same digits there, and no sign of its own unless no digit follows. */
  lemma SignSkipped(s: seq<Byte>, ptr: nat, base: int, neg: bool, nptr: nat)
    requires Terminated(s) && ptr < |s| && nptr < |s| && CallSite(s, ptr, neg, nptr)
    ensures var p, p' := ScanPrefix(s, ptr, base), ScanPrefix(s, nptr, base);
            if p.BadBase? then p' == p
            else
              p' == Prefix(p.neg && !neg, p.orig, p.start, p.base) && nptr <= p.orig
              && (p.neg && !neg ==> p.orig == p.start == DigitsEnd(s, p.start, p.base))
              && (neg ==> p.neg)
  {
    var i := SkipSpace(s, ptr);
    assert SkipSpace(s, nptr) == nptr;
    var p := ScanPrefix(s, ptr, base);
    if p.Prefix? && p.neg && !neg {
      assert p.orig == i + 1 && DigitOf(s[i + 1]) >= 36;
    }
  }

  // ----- what the parsers make of a text, in plain characters -----

  predicate Blank(c: Byte) { 9 <= c <= 13 || c == 32 }

  /** A digit of base b: '0' to '9', and then the letters of either case from 10 on. */
  predicate DigitIn(c: Byte, b: int)
  {
    (48 <= c <= 57 && c - 48 < b) || (65 <= c <= 90 && c - 65 + 10 < b) || (97 <= c <= 122 && c - 97 + 10 < b)
  }

  lemma DigitInMeans(c: Byte, b: int)
    requires 2 <= b <= 36
    ensures DigitIn(c, b) <==> DigitOf(c) < b
    ensures DigitIn(c, b) ==> DigitOf(c) == if c <= 57 then c - 48 else if c <= 90 then c - 65 + 10 else c - 97 + 10
    ensures Blank(c) <==> IsSpace(c)
    ensures DigitIn(c, 16) <==> IsXDigit(c)
  {
  }

  /** "0x" or "0X" and a hexadecimal digit. */
  predicate HexAt(s: seq<Byte>, o: nat)
  {
    o + 2 < |s| && s[o] == 48 && (s[o + 1] == 120 || s[o + 1] == 88) && DigitIn(s[o + 2], 16)
  }

  /** From o on, digits of base b that begin at d are meant when the caller asks for a base. */
  predicate ReadsAs(s: seq<Byte>, o: nat, d: nat, base: int, b: int)
  {
    o < |s| &&
    if (base == 0 || base == 16) && HexAt(s, o) then d == o + 2 && b == 16
    else d == o && b == (if base != 0 then base else if s[o] == 48 then 8 else 10)
  }

  /**
   A number in a text, from ptr on: blanks up to i, an optional sign up to o, then the prefix, and
   the digits of base b from d up to e.
   */
  predicate Spelled(s: seq<Byte>, ptr: nat, i: nat, o: nat, d: nat, e: nat, base: int, b: int)
  {
    && Terminated(s) && ptr <= i <= o <= d <= e < |s|
    && (base == 0 || 2 <= base <= 36)
    && (forall k :: ptr <= k < i ==> Blank(s[k])) && !Blank(s[i])
    && o == (if s[i] == 43 || s[i] == 45 then i + 1 else i)
    && ReadsAs(s, o, d, base, b) && 2 <= b <= 36
    && (forall k :: d <= k < e ==> DigitIn(s[k], b)) && !DigitIn(s[e], b)
  }

  lemma {:induction false} BlanksSkipped(s: seq<Byte>, ptr: nat, i: nat)
    requires Terminated(s) && ptr <= i < |s| && (forall k :: ptr <= k < i ==> Blank(s[k])) && !Blank(s[i])
    ensures SkipSpace(s, ptr) == i
    decreases i - ptr
  {
    if ptr < i {
      BlanksSkipped(s, ptr + 1, i);
    }
  }

  lemma {:induction false} DigitsFollow(s: seq<Byte>, d: nat, e: nat, b: int)
    requires Terminated(s) && d <= e < |s| && 2 <= b <= 36
    requires (forall k :: d <= k < e ==> DigitIn(s[k], b)) && !DigitIn(s[e], b)
    ensures DigitsEnd(s, d, b) == e
    decreases e - d
  {
    DigitInMeans(s[d], b);
    if d < e {
      assert DigitIn(s[d], b);
      DigitsFollow(s, d + 1, e, b);
    }
  }

  lemma PrefixIs(s: seq<Byte>, ptr: nat, i: nat, o: nat, d: nat, e: nat, base: int, b: int)
    requires Spelled(s, ptr, i, o, d, e, base, b)
    ensures ScanPrefix(s, ptr, base) == Prefix(s[i] == 45, o, d, b) && DigitsEnd(s, d, b) == e
  {
    hide HexPrefix, HexAt, DigitIn, DigitsEnd, SkipSpace;
    BlanksSkipped(s, ptr, i);
    DigitsFollow(s, d, e, b);
    if s[o] == 48 {
      HexEither(s, o);
    } else {
      NoHex(s, o);
    }
  }

  lemma HexEither(s: seq<Byte>, o: nat)
    requires Terminated(s) && o < |s| && s[o] == 48
    ensures HexPrefix(s, o) <==> HexAt(s, o)
  {
    if o + 2 < |s| {
      DigitInMeans(s[o + 2], 16);
    }
  }

  lemma NoHex(s: seq<Byte>, o: nat)
    requires o < |s| && s[o] != 48
    ensures !HexAt(s, o)
  {
  }

  /**
   strtoul and strtoull on every text with a known base: the value of the digits, or 2^64 minus
   it behind a '-', up to the end of the digits; ULONG_MAX and ERANGE from 2^64 on; and 0 with
   the end pointer at the start when there is no digit.
   */
  lemma UnsignedText(s: seq<Byte>, ptr: nat, i: nat, o: nat, d: nat, e: nat, base: int, b: int)
    requires Spelled(s, ptr, i, o, d, e, base, b)
    ensures var v := Eval(s[d..e], b);
            ParseUnsigned(s, ptr, base)
            == if d == e then Parsed(0, Some(ptr), Einval)
               else if v >= 0x1_0000_0000_0000_0000 then Parsed(0xFFFF_FFFF_FFFF_FFFF, Some(e), Erange)
               else Parsed(if s[i] == 45 && v > 0 then 0x1_0000_0000_0000_0000 - v else v, Some(e), Untouched)
  {
    PrefixIs(s, ptr, i, o, d, e, base, b);
    assert d != o ==> d < e;
  }

  /** strtol: the same with the signed value, clamped to the range of long. */
  lemma SignedText(s: seq<Byte>, ptr: nat, i: nat, o: nat, d: nat, e: nat, base: int, b: int)
    requires Spelled(s, ptr, i, o, d, e, base, b)
    ensures var v: int := Eval(s[d..e], b);
            var value := if s[i] == 45 then -v else v;
            var r := ParseSigned(s, ptr, base);
            if d == e then r == Parsed(0, Some(ptr), Einval)
            else
              && r.end == Some(e)
              && r.value == (if value < -0x8000_0000_0000_0000 then -0x8000_0000_0000_0000
                             else if value > 0x7FFF_FFFF_FFFF_FFFF then 0x7FFF_FFFF_FFFF_FFFF else value)
              && (r.errno == Erange <==> value != r.value)
  {
    PrefixIs(s, ptr, i, o, d, e, base, b);
    assert d != o ==> d < e;
  }

  /** Every text is one of these. */
  lemma {:induction false} EveryTextSpelled(s: seq<Byte>, ptr: nat, base: int) returns (i: nat, o: nat, d: nat, e: nat, b: int)
    requires Terminated(s) && ptr < |s| && (base == 0 || 2 <= base <= 36)
    ensures Spelled(s, ptr, i, o, d, e, base, b)
  {
    i := SkipBlanks(s, ptr);
    o := if s[i] == 43 || s[i] == 45 then i + 1 else i;
    if (base == 0 || base == 16) && HexAt(s, o) {
      d, b := o + 2, 16;
    } else {
      d, b := o, if base != 0 then base else if s[o] == 48 then 8 else 10;
    }
    e := SkipDigits(s, d, b);
  }

  lemma {:induction false} SkipBlanks(s: seq<Byte>, ptr: nat) returns (i: nat)
    requires Terminated(s) && ptr < |s|
    ensures ptr <= i < |s| && (forall k :: ptr <= k < i ==> Blank(s[k])) && !Blank(s[i])
    decreases |s| - ptr
  {
    i := ptr;
    if Blank(s[ptr]) {
      i := SkipBlanks(s, ptr + 1);
    }
  }

  lemma {:induction false} SkipDigits(s: seq<Byte>, d: nat, b: int) returns (e: nat)
    requires Terminated(s) && d < |s| && 2 <= b <= 36
    ensures d <= e < |s| && (forall k :: d <= k < e ==> DigitIn(s[k], b)) && !DigitIn(s[e], b)
    decreases |s| - d
  {
    e := d;
    if DigitIn(s[d], b) {
      e := SkipDigits(s, d + 1, b);
    }
  }

  /** "0123" with base 0 is octal. */
  lemma OctalText()
    ensures ParseUnsigned([48, 49, 50, 51, 0], 0, 0) == Parsed(83, Some(4), Untouched)
  {
    hide Eval, ParseUnsigned;
    var s: seq<Byte> := [48, 49, 50, 51, 0];
    UnsignedText(s, 0, 0, 0, 0, 4, 0, 8);
    assert s[0..4] == [48, 49, 50, 51];
    OctalValue();
  }

  lemma OctalValue()
    ensures Eval([48, 49, 50, 51], 8) == 83
  {
    hide Eval;
    EvalEmpty(8);
    EvalLast([], 48, 8);
    EvalLast([48], 49, 8);
    EvalLast([48, 49], 50, 8);
    EvalLast([48, 49, 50], 51, 8);
    assert [] + [48] == [48] && [48] + [49] == [48, 49];
    assert [48, 49] + [50] == [48, 49, 50] && [48, 49, 50] + [51] == [48, 49, 50, 51];
  }

  lemma EvalEmpty(base: nat)
    ensures Eval([], base) == 0
  {
  }

  // ----- __ltostr -----

  function DigitChar(d: nat, upCase: bool): (c: Byte)
    requires d < 36
    ensures DigitOf(c) == d && IsAlnum(c)
  {
    if d < 10 then d + 48 else if upCase then d + 55 else d + 87
  }

  /** The characters of the digits: upCase selects the case of the letters. */
  lemma DigitCharIs(d: nat, upCase: bool)
    requires d < 36
    ensures d < 10 ==> 48 <= DigitChar(d, upCase) <= 57
    ensures d >= 10 && upCase ==> 65 <= DigitChar(d, upCase) <= 90
    ensures d >= 10 && !upCase ==> 97 <= DigitChar(d, upCase) <= 122
  {
  }

  predicate InCase(c: Byte, upCase: bool) { 48 <= c <= 57 || (if upCase then 65 <= c <= 90 else 97 <= c <= 122) }

  /** The digits of i, most significant first, without leading zeros. */
  function Digits(i: nat, base: nat, upCase: bool): (t: seq<Byte>)
    requires 2 <= base <= 36
    ensures |t| > 0
    ensures forall k :: 0 <= k < |t| ==> IsAlnum(t[k]) && DigitOf(t[k]) < base
    decreases i
  {
    if i < base then [DigitChar(i, upCase)]
    else
      DivLess(i, base);
      Digits(i / base, base, upCase) + [DigitChar(i % base, upCase)]
  }

  lemma DivLess(i: nat, base: nat)
    requires 2 <= base
    ensures 0 <= i / base && 0 <= i % base < base && i == (i / base) * base + i % base
    ensures i > 0 ==> i / base < i
    ensures i >= base <==> i / base > 0
  {
    DivLessParts(i, base, i / base, i % base);
  }

  lemma DivLessParts(i: int, base: int, q: int, r: int)
    requires 2 <= base && 0 <= i && 0 <= r < base && i == q * base + r
    ensures 0 <= q && (i > 0 ==> q < i) && (i >= base <==> q > 0)
  {
    if q < 0 {
      MulMono(q, -1, base);
    } else if q > 0 {
      MulMono(2, base, q);
    }
  }

  lemma {:induction false} EvalDigits(i: nat, base: nat, upCase: bool)
    requires 2 <= base <= 36
    ensures Eval(Digits(i, base, upCase), base) == i
    decreases i
  {
    var t := Digits(i, base, upCase);
    if i < base {
      assert t[..0] == [];
    } else {
      DivLess(i, base);
      EvalDigits(i / base, base, upCase);
      assert t[..|t| - 1] == Digits(i / base, base, upCase);
    }
  }

  /** No digit is written in vain: the number of digits is the least one that the number needs. */
  lemma {:induction false} DigitCount(i: nat, base: nat, upCase: bool)
    requires i > 0 && 2 <= base <= 36
    ensures Power(base, |Digits(i, base, upCase)| - 1) <= i < Power(base, |Digits(i, base, upCase)|)
    decreases i
  {
    hide Power;
    DivLess(i, base);
    PowerNext(base, 0);
    var rest := i / base;
    if rest > 0 {
      DigitCount(rest, base, upCase);
      var n := |Digits(rest, base, upCase)|;
      PowerNext(base, n - 1);
      PowerNext(base, n);
      DigitPlaced(i, base, rest, i % base, Power(base, n - 1), Power(base, n));
    }
  }

  lemma PowerNext(base: nat, n: nat)
    ensures Power(base, 0) == 1 && Power(base, n + 1) == Power(base, n) * base
    ensures Power(base, 1) == base
  {
  }

  lemma DigitPlaced(i: int, base: int, rest: int, d: int, low: int, high: int)
    requires 0 <= d < base && i == rest * base + d && low <= rest < high
    ensures low * base <= i < high * base
  {
    MulMono(low, rest, base);
    MulMono(rest + 1, high, base);
  }

  /** The base __ltostr really uses. */
  function PrintBase(base: nat): nat { if base == 0 || base > 36 then 10 else base }

  /** The last n bytes of t. */
  function Last(t: seq<Byte>, n: nat): seq<Byte>
  {
    if n < |t| then t[|t| - n..] else t
  }

  /** What the loop emits into n bytes; it stops early when nothing is left of i. */
  function Emitted(i: nat, base: nat, upCase: bool, n: nat): (t: seq<Byte>)
    requires 1 <= base <= 36
    ensures |t| <= n
  {
    if n == 0 || i == 0 then []
    else
      DivRange(i, base);
      Emitted(i / base, base, upCase, n - 1) + [DigitChar(i % base, upCase)]
  }

  lemma DivRange(i: nat, base: nat)
    requires base >= 1
    ensures 0 <= i / base && 0 <= i % base < base && i == (i / base) * base + i % base
  {
    if i / base < 0 {
      MulMono(i / base, -1, base);
    }
  }

  /** In a proper base that is the low-order end of the digits. */
  lemma {:induction false} EmittedIsLast(i: nat, base: nat, upCase: bool, n: nat)
    requires i > 0 && 2 <= base <= 36
    ensures Emitted(i, base, upCase, n) == Last(Digits(i, base, upCase), n)
  {
    if n > 0 {
      DivLess(i, base);
      var rest, c := i / base, DigitChar(i % base, upCase);
      if rest > 0 {
        EmittedIsLast(rest, base, upCase, n - 1);
        LastSnoc(Digits(rest, base, upCase), c, n);
      } else {
        assert Emitted(rest, base, upCase, n - 1) == [];
      }
    }
  }

  lemma LastSnoc(t: seq<Byte>, c: Byte, n: nat)
    requires n > 0
    ensures Last(t, n - 1) + [c] == Last(t + [c], n)
  {
  }

  /** Base 1 has no digits: the loop fills all the room with '0'. */
  lemma {:induction false} EmittedInBaseOne(i: nat, upCase: bool, n: nat)
    requires i > 0
    ensures Emitted(i, 1, upCase, n) == seq(n, _ => 48)
  {
    if n > 0 {
      assert i / 1 == i && i % 1 == 0;
      EmittedInBaseOne(i, upCase, n - 1);
    }
  }

  function Printed(i: nat, base: nat, upCase: bool, n: nat): seq<Byte>
  {
    if i == 0 then [48]
    else if PrintBase(base) == 1 then seq(n, _ => 48)
    else Last(Digits(i, PrintBase(base), upCase), n)
  }

  /** A base that is no base is taken for 10. */
  lemma DefaultBase(size: nat, i: nat, base: nat, upCase: bool)
    requires base == 0 || base > 36
    ensures Text(size, i, base, upCase) == Text(size, i, 10, upCase)
  {
  }

  lemma EmittedIsPrinted(i: nat, base: nat, upCase: bool, n: nat)
    requires i > 0
    ensures 1 <= PrintBase(base) <= 36 && Emitted(i, PrintBase(base), upCase, n) == Printed(i, base, upCase, n)
  {
    if PrintBase(base) == 1 {
      EmittedInBaseOne(i, upCase, n);
    } else {
      EmittedIsLast(i, PrintBase(base), upCase, n);
    }
  }

  // ----- the buffer in memory -----

  /** What --size makes of size, an unsigned int: the offset at which the NUL is stored. */
  function LastOffset(size: nat): nat { if size == 0 then 0xFFFF_FFFF else size - 1 }

  /**
   The bytes the code touches exist in a memory of so many bytes with the buffer at address
   s: up to the NUL, and, when there is no room for the '0' that it writes without looking,
   the byte before the buffer and the byte behind it.
   */
  predicate Touchable(total: nat, s: nat, size: nat, i: nat)
  {
    s + LastOffset(size) < total && (i == 0 && LastOffset(size) == 0 ==> 0 < s && s + 1 < total)
  }

  /** The bytes t stored at address `at`. */
  function Put(mem: seq<Byte>, at: int, t: seq<Byte>): (r: seq<Byte>)
    requires 0 <= at && at + |t| <= |mem|
    ensures |r| == |mem|
    ensures forall k :: 0 <= k < |mem| ==> r[k] == if at <= k < at + |t| then t[k - at] else mem[k]
  {
    mem[..at] + t + mem[at + |t|..]
  }

  function Text(size: nat, i: nat, base: nat, upCase: bool): (t: seq<Byte>)
    ensures i == 0 ==> t == [48]
    ensures i != 0 ==> |t| <= LastOffset(size)
  {
    if i != 0 then EmittedIsPrinted(i, base, upCase, LastOffset(size));
                   Printed(i, base, upCase, LastOffset(size))
    else Printed(i, base, upCase, LastOffset(size))
  }

  /** Memory after the call: the text with its NUL at the end of the buffer, and then moved to its start. */
  function Written(mem: seq<Byte>, s: nat, size: nat, i: nat, base: nat, upCase: bool): (r: seq<Byte>)
    requires Touchable(|mem|, s, size, i)
    ensures |r| == |mem|
  {
    var t := Text(size, i, base, upCase) + [0];
    Put(Put(mem, s + LastOffset(size) + 1 - |t|, t), s, t)
  }

  /**
   Prints i at address s and returns the number of digits: all of them, or in a short buffer
   the low-order size - 1.
   */
  method LToStr(mem: array<Byte>, s: nat, size: nat, i0: nat, base0: nat, upCase: bool) returns (j: nat)
    requires size < 0x1_0000_0000 && Touchable(mem.Length, s, size, i0)
    modifies mem
    ensures j == |Text(size, i0, base0, upCase)|
    ensures mem[..] == Written(old(mem[..]), s, size, i0, base0, upCase)
  {
    hide Text, Put;
    var tmp;
    tmp, j := PutText(mem, s, size, i0, base0, upCase);
    MoveDown(mem, s, tmp, j + 1, Text(size, i0, base0, upCase) + [0]);
  }

  /** __ltostr up to the memmove: the text and its NUL at the end of the buffer. */
  method PutText(mem: array<Byte>, s: nat, size: nat, i0: nat, base0: nat, upCase: bool) returns (tmp: nat, j: nat)
    requires size < 0x1_0000_0000 && Touchable(mem.Length, s, size, i0)
    modifies mem
    ensures j == |Text(size, i0, base0, upCase)| && tmp + j == s + LastOffset(size)
    ensures mem[..] == Put(old(mem[..]), tmp, Text(size, i0, base0, upCase) + [0])
    ensures mem[tmp..tmp + j + 1] == Text(size, i0, base0, upCase) + [0]
  {
    hide Printed, Emitted, Put;
    var last, i, base := WrapDown(size), i0, base0;
    ghost var was := mem[..];
    mem[s + last] := 0;
    tmp := s + last;
    if base == 0 || base > 36 { base := 10; }
    j := 0;
    if i == 0 {
      tmp := tmp - 1;
      mem[tmp] := 48;
      j := 1;
    } else {
      EmittedIsPrinted(i, base0, upCase, last);
      tmp, j := FillBackwards(mem, s, last, i, base, upCase);
    }
    ghost var t := Text(size, i0, base0, upCase);
    assert mem[tmp..tmp + j] == t;
    assert mem[tmp..tmp + j + 1] == t + [0];
    PutIs(was, mem[..], tmp, t + [0]);
  }

  /** --size of an unsigned int */
  function WrapDown(size: nat): (last: nat)
    requires size < 0x1_0000_0000
    ensures last == LastOffset(size)
  {
    (size + 0xFFFF_FFFF) % 0x1_0000_0000
  }

  lemma PutIs(mem: seq<Byte>, r: seq<Byte>, at: nat, t: seq<Byte>)
    requires at + |t| <= |mem| == |r| && r[at..at + |t|] == t
    requires forall k :: 0 <= k < at || at + |t| <= k < |mem| ==> r[k] == mem[k]
    ensures r == Put(mem, at, t)
  {
    forall k | at <= k < at + |t|
      ensures r[k] == t[k - at]
    {
      assert r[at..at + |t|][k - at] == r[k];
    }
  }

  /** memmove(s, tmp, n), where t is what is at tmp. */
  method MoveDown(mem: array<Byte>, s: nat, tmp: nat, n: nat, ghost t: seq<Byte>)
    requires s + n <= mem.Length && tmp + n <= mem.Length && mem[tmp..tmp + n] == t
    modifies mem
    ensures mem[..] == Put(old(mem[..]), s, t)
  {
    ghost var was := mem[..];
    forall k | 0 <= k < n
      ensures t[k] == was[tmp + k]
    {
      assert mem[tmp..tmp + n][k] == mem[tmp + k];
    }
    forall k | s <= k < s + n { mem[k] := mem[tmp + (k - s)]; }
    assert mem[s..s + n] == t;
    PutIs(was, mem[..], s, t);
  }

  /** The digit loop of __ltostr, from offset last downwards. */
  method FillBackwards(mem: array<Byte>, s: nat, last: nat, i0: nat, base: nat, upCase: bool) returns (tmp: nat, j: nat)
    requires s + last < mem.Length && 1 <= base <= 36
    modifies mem
    ensures s <= tmp && tmp + j == s + last
    ensures mem[tmp..s + last] == Emitted(i0, base, upCase, last)
    ensures forall k :: 0 <= k < tmp || s + last <= k < mem.Length ==> mem[k] == old(mem[k])
  {
    var i := i0;
    tmp, j := s + last, 0;
    ghost var full := Emitted(i, base, upCase, last);
    while tmp > s && i != 0
      invariant s <= tmp && tmp + j == s + last
      invariant full == Emitted(i, base, upCase, tmp - s) + mem[tmp..s + last]
      invariant forall k :: 0 <= k < tmp || s + last <= k < mem.Length ==> mem[k] == old(mem[k])
      decreases tmp
    {
      ghost var done := mem[tmp..s + last];
      var d, rest := DivStep(i, base);
      tmp := tmp - 1;
      mem[tmp] := d + 48;
      if mem[tmp] > 57 { mem[tmp] := mem[tmp] + (if upCase then 65 else 97) - 57 - 1; }
      assert mem[tmp..s + last] == [DigitChar(d, upCase)] + done;
      EmitOne(full, i, base, upCase, tmp - s, d, rest, done);
      i := rest;
      j := j + 1;
    }
  }

  /** In a buffer with room for a digit, or for a number that needs none, the text and its NUL end up at its start. */
  lemma TextAtStart(mem: seq<Byte>, s: nat, size: nat, i: nat, base: nat, upCase: bool)
    requires Touchable(|mem|, s, size, i)
    ensures var t := Text(size, i, base, upCase);
            s + |t| < |mem| && Written(mem, s, size, i, base, upCase)[s..s + |t| + 1] == t + [0]
  {
  }

  /** All of a printed text is in the case asked for. */
  lemma TextInCase(size: nat, i: nat, base: nat, upCase: bool)
    ensures forall k :: 0 <= k < |Text(size, i, base, upCase)| ==> InCase(Text(size, i, base, upCase)[k], upCase)
  {
    if i != 0 && PrintBase(base) != 1 {
      DigitsInCase(i, PrintBase(base), upCase);
    }
  }

  lemma {:induction false} DigitsInCase(i: nat, base: nat, upCase: bool)
    requires 2 <= base <= 36
    ensures forall k :: 0 <= k < |Digits(i, base, upCase)| ==> InCase(Digits(i, base, upCase)[k], upCase)
    decreases i
  {
    if i >= base {
      DivLess(i, base);
      DigitsInCase(i / base, base, upCase);
    }
  }

  /** Only the size bytes of the buffer change. */
  predicate Inside(mem: seq<Byte>, r: seq<Byte>, s: nat, size: nat)
    requires |r| == |mem|
  {
    forall k :: 0 <= k < |mem| && !(s <= k < s + size) ==> r[k] == mem[k]
  }

  /** What the code does to a buffer of one byte when it prints 0: the bytes around it change. */
  lemma ZeroInOneByte(base: nat, upCase: bool)
    ensures Written([7, 7, 7], 1, 1, 0, base, upCase) == [48, 48, 0]
    ensures !Inside([7, 7, 7], [48, 48, 0], 1, 1)
  {
    var t := Text(1, 0, base, upCase) + [0];
    assert t == [48, 0];
    assert Put([7, 7, 7], 0, t) == [48, 0, 7];
    assert Put([48, 0, 7], 1, t) == [48, 48, 0];
    assert [48, 48, 0][0] != [7, 7, 7][0];
  }

  /** And with a size of 0 the NUL goes 4 GB behind the buffer. */
  lemma NothingFits(i: nat, base: nat, upCase: bool) returns (mem: seq<Byte>)
    ensures Touchable(|mem|, 1, 0, i) && !Inside(mem, Written(mem, 1, 0, i, base, upCase), 1, 0)
  {
    mem := seq(0x1_0000_0002, _ => 7);
    var at := 1 + 0xFFFF_FFFF;
    var t := Text(0, i, base, upCase) + [0];
    var mid := Put(mem, at + 1 - |t|, t);
    assert mid[at] == 0;
    assert Written(mem, 1, 0, i, base, upCase)[at] != 7;
  }

  lemma InsideWithRoom(mem: seq<Byte>, s: nat, size: nat, i: nat, base: nat, upCase: bool)
    requires Touchable(|mem|, s, size, i) && size > 0 && !(i == 0 && size == 1)
    ensures Inside(mem, Written(mem, s, size, i, base, upCase), s, size)
  {
    hide Text;
  }

  /** The call stays inside the buffer, in every memory, exactly if there is room for the NUL and for the '0' of a 0. */
  lemma StaysInside(size: nat, i: nat, base: nat, upCase: bool)
    ensures (forall mem, s | Touchable(|mem|, s, size, i) :: Inside(mem, Written(mem, s, size, i, base, upCase), s, size))
            <==> size > 0 && !(i == 0 && size == 1)
  {
    hide Inside, Written;
    if size == 0 {
      var mem := NothingFits(i, base, upCase);
    } else if i == 0 && size == 1 {
      ZeroInOneByte(base, upCase);
      assert Touchable(|[7, 7, 7]|, 1, size, i);
    } else {
      forall mem, s: nat | Touchable(|mem|, s, size, i)
        ensures Inside(mem, Written(mem, s, size, i, base, upCase), s, size)
      {
        InsideWithRoom(mem, s, size, i, base, upCase);
      }
    }
  }

  lemma EmitOne(full: seq<Byte>, i: nat, base: nat, upCase: bool, tmp: nat, d: nat, rest: nat, done: seq<Byte>)
    requires 1 <= base <= 36 && i != 0 && d == i % base && rest == i / base && d < base
    requires full == Emitted(i, base, upCase, tmp + 1) + done
    ensures full == Emitted(rest, base, upCase, tmp) + ([DigitChar(d, upCase)] + done)
  {
  }

  method DivStep(i: nat, base: nat) returns (d: nat, rest: nat)
    requires base >= 1
    ensures d == i % base && rest == i / base && d < base
  {
    DivRange(i, base);
    d, rest := i % base, i / base;
  }

  // ----- print, then parse -----

  /** A string of digits of the base is parsed to its end, whatever the sign and prefix rules. */
  lemma ParseDigits(s: seq<Byte>, n: nat, base: nat)
    requires Terminated(s) && 0 < n < |s| && s[n] == 0 && 2 <= base <= 36
    requires forall k :: 0 <= k < n ==> IsAlnum(s[k]) && DigitOf(s[k]) < base
    requires Eval(s[..n], base) < WORD
    ensures ParseUnsigned(s, 0, base) == Parsed(Eval(s[..n], base), Some(n), Untouched)
  {
    assert SkipSpace(s, 0) == 0;
    if base == 16 && s[0] == 48 {
      assert !HexPrefix(s, 0) by {
        assert s[1] == 0 || DigitOf(s[1]) < 16;
      }
    }
    assert ScanPrefix(s, 0, base) == Prefix(false, 0, 0, base);
    assert DigitsEnd(s, 0, base) == n;
    assert s[0..n] == s[..n];
  }

  function Power(base: nat, n: nat): nat
  {
    if n == 0 then 1 else Power(base, n - 1) * base
  }

  /** The n low-order digits are worth i modulo base^n. */
  lemma {:induction false} LowDigits(i: nat, base: nat, upCase: bool, n: nat)
    requires 2 <= base <= 36
    ensures Power(base, n) > 0 && Eval(Last(Digits(i, base, upCase), n), base) == i % Power(base, n)
    decreases n
  {
    var t := Digits(i, base, upCase);
    if n == 0 {
      assert Last(t, 0) == [];
    } else {
      DivLess(i, base);
      var rest, d := i / base, i % base;
      LowDigits(rest, base, upCase, n - 1);
      ModStep(i, base, rest, d, Power(base, n - 1));
      if rest == 0 {
        assert t == [DigitChar(i, upCase)] && Last(t, n) == t;
        assert t[..0] == [];
      } else {
        LastSnoc(Digits(rest, base, upCase), DigitChar(d, upCase), n);
        EvalLast(Last(Digits(rest, base, upCase), n - 1), DigitChar(d, upCase), base);
      }
    }
  }

  lemma EvalLast(t: seq<Byte>, c: Byte, base: nat)
    ensures Eval(t + [c], base) == Eval(t, base) * base + DigitOf(c)
  {
    assert (t + [c])[..|t|] == t;
  }

  lemma ModStep(i: nat, base: nat, rest: nat, d: nat, p: nat)
    requires base >= 2 && p > 0 && i == rest * base + d && d < base
    ensures p * base > 0 && i % (p * base) == (rest % p) * base + d
    ensures rest == 0 ==> i % (p * base) == d
  {
    var q, r := rest / p, rest % p;
    assert rest == q * p + r;
    MulMono(r, p - 1, base);
    MulMono(1, p, base);
    MulMono(0, r, base);
    assert i == q * (p * base) + (r * base + d) by {
      assert (q * p + r) * base == q * (p * base) + r * base;
    }
    DivModUnique(i, p * base, q, r * base + d);
    if rest == 0 {
      DivModUnique(0, p, 0, 0);
    }
  }

  /**
   Printing and parsing back is the identity whenever the digits fit; in a shorter buffer
   what comes back is the value modulo base^(size - 1).
   */
  method PrintThenParse(mem: array<Byte>, s: nat, size: nat, i: nat, base: nat, upCase: bool) returns (r: Parsed)
    requires 2 <= size < 0x1_0000_0000 && s + size <= mem.Length && i < WORD && 2 <= base <= 36
    modifies mem
    ensures |Digits(i, base, upCase)| < size ==> r == Parsed(i, Some(|Digits(i, base, upCase)|), Untouched)
    ensures Power(base, size - 1) > 0 && r.value == i % Power(base, size - 1) && r.errno == Untouched
  {
    hide Digits, Eval, Power, Text, Put, Written, ParseUnsigned;
    ghost var was := mem[..];
    var j := LToStr(mem, s, size, i, base, upCase);
    ghost var t := Text(size, i, base, upCase);
    TextAtStart(was, s, size, i, base, upCase);
    TextIsLast(size, i, base, upCase);
    var text := mem[s..s + j + 1];
    assert text == mem[..][s..s + j + 1] == t + [0];
    assert text[..j] == t;
    EvalDigits(i, base, upCase);
    LowDigits(i, base, upCase, size - 1);
    ModAtMost(i, Power(base, size - 1));
    ParseDigits(text, j, base);
    r := StrToUL(text, 0, base);
  }

  lemma TextIsLast(size: nat, i: nat, base: nat, upCase: bool)
    requires 2 <= size && 2 <= base <= 36
    ensures Text(size, i, base, upCase) == Last(Digits(i, base, upCase), size - 1) != []
    ensures |Digits(i, base, upCase)| < size ==> Text(size, i, base, upCase) == Digits(i, base, upCase)
    ensures forall k :: 0 <= k < |Text(size, i, base, upCase)| ==>
              IsAlnum(Text(size, i, base, upCase)[k]) && DigitOf(Text(size, i, base, upCase)[k]) < base
  {
    if i == 0 {
      assert Digits(i, base, upCase) == [48];
    }
  }

  lemma ModAtMost(x: nat, m: nat)
    requires m > 0
    ensures 0 <= x % m <= x
  {
    if x < m { DivModUnique(x, m, 0, x); }
  }
}

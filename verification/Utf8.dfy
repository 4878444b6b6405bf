/**
 The multibyte codec: wcrtomb (lib/wcrtomb.c) and the restartable mbrtowc (lib/mbrtowc.c),
 for both values of lc_ctype.  An unsigned char is 0..255 and keeps the low eight bits of
 what is shifted into it.
 */
module Utf8 {
  import opened Bits
  import opened Common

  /** One past the largest value of a wchar_t. */
  const MAX_WCHAR: int := 0x8000_0000

  /** lc_ctype */
  datatype Ctype = CT_8BIT | CT_UTF8

  // ----- the encoding as section 2 of RFC 2279 lays it out -----

  function Octets(wc: nat): (n: nat)
    requires wc < MAX_WCHAR
    ensures 1 <= n <= 6
  {
    if wc < 0x80 then 1
    else if wc < 0x800 then 2
    else if wc < 0x1_0000 then 3
    else if wc < 0x20_0000 then 4
    else if wc < 0x400_0000 then 5
    else 6
  }

  /** The lead octet of an n-octet sequence has n ones, a zero, and then value bits. */
  function LeadMark(n: nat): nat
    requires 2 <= n <= 6
  {
    if n == 2 then 0xC0 else if n == 3 then 0xE0 else if n == 4 then 0xF0 else if n == 5 then 0xF8 else 0xFC
  }

  /** The k-th six-bit group of wc, counted from the least significant. */
  function Group(wc: nat, k: nat): (g: nat)
    ensures g < 64
  {
    Shr(wc, 6 * k) % 64
  }

  /** The k low six-bit groups of wc, most significant first, each in a continuation octet. */
  function Continuations(wc: nat, k: nat): (s: seq<Byte>)
    ensures |s| == k
    ensures forall i :: 0 <= i < k ==> s[i] == 0x80 + Group(wc, k - 1 - i)
  {
    if k == 0 then [] else [0x80 + Group(wc, k - 1)] + Continuations(wc, k - 1)
  }

  function Encode(wc: nat): (s: seq<Byte>)
    requires wc < MAX_WCHAR
    ensures |s| == Octets(wc)
  {
    if wc < 0x80 then [wc]
    else
      var n := Octets(wc);
      LeadFits(wc);
      [LeadMark(n) + Shr(wc, 6 * (n - 1))] + Continuations(wc, n - 1)
  }

  lemma Pow2Values()
    ensures Pow2(1) == 2 && Pow2(2) == 4 && Pow2(3) == 8 && Pow2(4) == 16 && Pow2(5) == 32 && Pow2(6) == 64
    ensures Pow2(11) == 0x800 && Pow2(16) == 0x1_0000 && Pow2(21) == 0x20_0000 && Pow2(26) == 0x400_0000
    ensures Pow2(31) == MAX_WCHAR
  {
  }

  /** The value bits of the lead octet are all clear in its mark. */
  lemma LeadFits(wc: nat)
    requires 0x80 <= wc < MAX_WCHAR
    ensures var n := Octets(wc);
            Shr(wc, 6 * (n - 1)) < Pow2(7 - n)
            && LeadMark(n) + Shr(wc, 6 * (n - 1)) < 256
  {
    Pow2Values();
    var n := Octets(wc);
    ShrBound(wc, 6 * (n - 1), 7 - n);
  }

  // ----- wcrtomb -----

  /** What wcrtomb writes: the encoding, or the low byte of a negative wc and of any wc in an 8-bit locale. */
  function Written(ctype: Ctype, wc: int): (s: seq<Byte>)
    requires -MAX_WCHAR <= wc < MAX_WCHAR
    ensures 1 <= |s| <= 6
  {
    if ctype == CT_8BIT || wc < 0 then [wc % 256] else Encode(wc)
  }

  /** Writes at the start of s and returns the length; nothing behind it is touched. */
  method WcRToMb(ctype: Ctype, s: array?<Byte>, wc: int) returns (n: nat)
    requires -MAX_WCHAR <= wc < MAX_WCHAR
    requires s != null ==> s.Length >= |Written(ctype, wc)|
    modifies s
    ensures s == null ==> n == if ctype == CT_UTF8 && wc >= 0x80 then 1 else 0
    ensures s != null ==> n == |Written(ctype, wc)| && s[..n] == Written(ctype, wc)
    ensures s != null && (ctype == CT_8BIT || wc < 0) ==> n == 1 && s[0] == wc % 256
    ensures s != null && ctype == CT_UTF8 && wc >= 0 ==> s[..n] == Encode(wc)
    ensures s != null ==> forall i :: n <= i < s.Length ==> s[i] == old(s[i])
  {
    if ctype == CT_8BIT {
      if s == null { return 0; }
      s[0] := wc % 256;
      return 1;
    }
    if s == null { return if wc >= 0x80 then 1 else 0; }
    var bits, c, j: nat;
    if wc >= 0x400_0000 { bits, c, j := 30, 0xFC, 6; }
    else if wc >= 0x20_0000 { bits, c, j := 24, 0xF8, 5; }
    else if wc >= 0x1_0000 { bits, c, j := 18, 0xF0, 4; }
    else if wc >= 0x800 { bits, c, j := 12, 0xE0, 3; }
    else if wc >= 0x80 { bits, c, j := 6, 0xC0, 2; }
    else { s[0] := wc % 256; return 1; }
    PutMultibyte(s, wc, bits, c, j);
    return j;
  }

  /** The part of wcrtomb that writes the j octets of a multibyte sequence. */
  method PutMultibyte(s: array<Byte>, wc: nat, bits0: nat, c: nat, j: nat)
    requires 0x80 <= wc < MAX_WCHAR && j == Octets(wc) <= s.Length
    requires c == LeadMark(j) && bits0 == 6 * (j - 1)
    modifies s
    ensures s[..j] == Encode(wc)
    ensures forall i :: j <= i < s.Length ==> s[i] == old(s[i])
  {
    var bits := bits0;
    ghost var code := Encode(wc);
    EncodeByShift(wc, j);
    s[0] := Or(c, Shr(wc, bits));
    for k := 1 to j
      invariant bits == 6 * (j - k)
      invariant forall i :: 0 <= i < k ==> s[i] == code[i]
      invariant forall i :: k <= i < s.Length ==> s[i] == old(s[i])
    {
      bits := bits - 6;
      s[k] := 0x80 + Shr(wc, bits) % 64;
    }
  }

  /** The octets of an encoding, got by or-ing, shifting and masking as wcrtomb does. */
  lemma EncodeByShift(wc: nat, n: nat)
    requires 0x80 <= wc < MAX_WCHAR && n == Octets(wc)
    ensures Encode(wc)[0] == Or(LeadMark(n), Shr(wc, 6 * (n - 1)))
    ensures forall k :: 1 <= k < n ==> Encode(wc)[k] == 0x80 + Shr(wc, 6 * (n - 1 - k)) % 64
  {
    LeadFits(wc);
    OrLead(n, Shr(wc, 6 * (n - 1)));
  }

  lemma OrLead(n: nat, y: nat)
    requires 2 <= n <= 6 && y < Pow2(7 - n)
    ensures Or(LeadMark(n), y) == LeadMark(n) + y
  {
    Pow2Values();
    OrIsSum(7 - n, if n == 2 then 6 else if n == 3 then 14 else if n == 4 then 30 else if n == 5 then 62 else 126, y);
  }

  // ----- mbrtowc as an automaton over single bytes -----

  /** What an mbstate_t remembers between calls. */
  datatype Dec = Dec(count: nat, sofar: nat)

  datatype Progress = Pending(d: Dec) | Illegal(d: Dec) | Complete(wc: nat)

  predicate IsContinuation(c: Byte) { 0x80 <= c < 0xC0 }

  /** How many continuation octets the lead octet c announces; 0, 6 and 7 are rejected. */
  function Announced(c: Byte): nat
    requires c >= 0x80
  {
    if c < 0xC0 then 0 else if c < 0xE0 then 1 else if c < 0xF0 then 2 else if c < 0xF8 then 3
    else if c < 0xFC then 4 else if c < 0xFE then 5 else if c < 0xFF then 6 else 7
  }

  function Take(d: Dec, c: Byte): Progress
  {
    if d.count > 0 then
      if !IsContinuation(c) then Illegal(Dec(0, d.sofar))
      else if d.count == 1 then Complete(d.sofar * 64 + c % 64)
      else Pending(Dec(d.count - 1, d.sofar * 64 + c % 64))
    else if c >= 0x80 then
      var n := Announced(c);
      if n == 0 || n > 5 then Illegal(Dec(0, d.sofar)) else Pending(Dec(n, c - LeadMark(n + 1)))
    else Complete(c)
  }

  /** The automaton run over s until it stops; with the number of bytes it looked at. */
  function Run(d: Dec, s: seq<Byte>): (r: (Progress, nat))
    ensures r.1 <= |s|
    ensures r.0.Pending? ==> r.1 == |s|
    decreases |s|
  {
    if s == [] then (Pending(d), 0)
    else
      var p := Take(d, s[0]);
      if p.Pending? then var r := Run(p.d, s[1..]); (r.0, r.1 + 1) else (p, 1)
  }

  /** One past the largest value that leaves room for count more groups in 31 bits. */
  function Limit(count: nat): nat
    requires count <= 5
  {
    if count == 0 then 0x8000_0000 else if count == 1 then 0x200_0000 else if count == 2 then 0x8_0000
    else if count == 3 then 0x2000 else if count == 4 then 0x80 else 2
  }

  predicate WellFormed(d: Dec) { d.count <= 5 && d.sofar < Limit(d.count) }

  lemma RunStep(d: Dec, s: seq<Byte>, i: nat)
    requires i < |s|
    ensures var p := Take(d, s[i]);
            Run(d, s[i..]) == if p.Pending? then (Run(p.d, s[i + 1..]).0, Run(p.d, s[i + 1..]).1 + 1) else (p, 1)
  {
    assert s[i..][1..] == s[i + 1..];
  }

  /** No single byte can make the state or the result exceed 31 bits. */
  lemma TakeKeepsWellFormed(d: Dec, c: Byte)
    requires WellFormed(d)
    ensures var p := Take(d, c); if p.Complete? then p.wc < MAX_WCHAR else WellFormed(p.d)
  {
  }

  /** Whatever bytes arrive, sofar stays within 31 bits and so does every decoded character. */
  lemma {:induction false} RunKeepsWellFormed(d: Dec, s: seq<Byte>)
    requires WellFormed(d)
    ensures var p := Run(d, s).0;
            if p.Complete? then p.wc < MAX_WCHAR else WellFormed(p.d)
    decreases |s|
  {
    if s != [] {
      var p := Take(d, s[0]);
      if p.Pending? {
        RunKeepsWellFormed(p.d, s[1..]);
      }
    }
  }

  /** A rejected octet ends the sequence it came in: nothing of it is waited for any more. */
  lemma {:induction false} IllegalForgets(d: Dec, s: seq<Byte>)
    ensures Run(d, s).0.Illegal? ==> Run(d, s).0.d.count == 0
    decreases |s|
  {
    if s != [] {
      var p := Take(d, s[0]);
      if p.Pending? {
        IllegalForgets(p.d, s[1..]);
      }
    }
  }

  /** Cutting the input in two changes nothing: the second part resumes where the first stopped. */
  lemma {:induction false} RunResumes(d: Dec, a: seq<Byte>, b: seq<Byte>)
    ensures var r := Run(d, a);
            Run(d, a + b) == if r.0.Pending? then (Run(r.0.d, b).0, |a| + Run(r.0.d, b).1) else r
    decreases |a|
  {
    if a == [] {
      assert a + b == b;
    } else {
      assert (a + b)[0] == a[0] && (a + b)[1..] == a[1..] + b;
      var p := Take(d, a[0]);
      if p.Pending? {
        RunResumes(p.d, a[1..], b);
      }
    }
  }

  /** The number that value bits v followed by continuation octets t stand for. */
  function Value(v: nat, t: seq<Byte>): nat
    decreases |t|
  {
    if t == [] then v else Value(v * 64 + t[0] % 64, t[1..])
  }

  predicate AllContinuations(t: seq<Byte>) { forall i :: 0 <= i < |t| ==> IsContinuation(t[i]) }

  /** An unfinished sequence completes on t exactly when t is the continuation octets it waits for. */
  lemma {:induction false} RunCompletes(d: Dec, t: seq<Byte>, w: nat)
    requires d.count > 0
    ensures Run(d, t) == (Complete(w), |t|) <==> |t| == d.count && AllContinuations(t) && w == Value(d.sofar, t)
    decreases |t|
  {
    if t != [] {
      var p := Take(d, t[0]);
      if p.Pending? {
        RunCompletes(p.d, t[1..], w);
        assert AllContinuations(t) <==> IsContinuation(t[0]) && AllContinuations(t[1..]);
      } else {
        assert d.count == 1 ==> t[1..] == [] || |t| > 1;
      }
    }
  }

  /** A value and the octets spell w exactly when they are the groups of w. */
  lemma {:induction false} ValueIsGroups(v: nat, t: seq<Byte>, w: nat)
    requires AllContinuations(t)
    ensures Value(v, t) == w <==> Shr(w, 6 * |t|) == v && t == Continuations(w, |t|)
    decreases |t|
  {
    var k := |t|;
    if k > 0 {
      ValueIsGroups(v * 64 + t[0] % 64, t[1..], w);
      GroupStep(w, k, v, t[0] % 64);
      ContinuationsCons(t, w);
    }
  }

  lemma ContinuationsCons(t: seq<Byte>, w: nat)
    requires t != [] && IsContinuation(t[0])
    ensures t == Continuations(w, |t|) <==> t[0] % 64 == Group(w, |t| - 1) && t[1..] == Continuations(w, |t| - 1)
  {
    hide Group, Shr;
    ConsIs(t, 0x80 + Group(w, |t| - 1), Continuations(w, |t| - 1));
    LowSix(t[0]);
  }

  lemma ConsIs(t: seq<Byte>, c: Byte, rest: seq<Byte>)
    requires t != []
    ensures t == [c] + rest <==> t[0] == c && t[1..] == rest
  {
    assert t == [t[0]] + t[1..];
    assert ([c] + rest)[1..] == rest;
  }

  lemma LowSix(c: Byte)
    requires IsContinuation(c)
    ensures c == 0x80 + c % 64
  {
  }

  lemma GroupStep(w: nat, k: nat, v: nat, b: nat)
    requires k > 0 && b < 64
    ensures Shr(w, 6 * (k - 1)) == v * 64 + b <==> Shr(w, 6 * k) == v && Group(w, k - 1) == b
  {
    ShrShr(w, 6 * (k - 1), 6);
    ShrSmall(Shr(w, 6 * (k - 1)));
  }

  lemma EncodeStart(w: nat)
    requires 0x80 <= w < MAX_WCHAR
    ensures var n := Octets(w);
            Announced(Encode(w)[0]) == n - 1 && Encode(w)[0] >= 0xC0
            && Encode(w)[0] - LeadMark(n) == Shr(w, 6 * (n - 1))
  {
    LeadFits(w);
    Pow2Values();
  }

  /** Decoding an encoding gives back the character and uses all its octets. */
  lemma DecodeEncode(stale: nat, w: nat)
    requires w < MAX_WCHAR
    ensures Run(Dec(0, stale), Encode(w)) == (Complete(w), Octets(w))
  {
    if w >= 0x80 {
      var n := Octets(w);
      EncodeStart(w);
      var t := Continuations(w, n - 1);
      assert Encode(w)[1..] == t;
      ValueIsGroups(Shr(w, 6 * (n - 1)), t, w);
      RunCompletes(Dec(n - 1, Shr(w, 6 * (n - 1))), t, w);
    }
  }

  /** The octets that begin a sequence which is longer than it needs to be. */
  predicate Overlong(s: seq<Byte>)
  {
    |s| > 0 &&
    (s[0] == 0xC0 || s[0] == 0xC1
     || (|s| >= 2 && ((s[0] == 0xE0 && s[1] < 0xA0) || (s[0] == 0xF0 && s[1] < 0x90)
                      || (s[0] == 0xF8 && s[1] < 0x88) || (s[0] == 0xFC && s[1] < 0x84))))
  }

  /**
   What else the decoder accepts: a sequence that decodes to w is the encoding of w, unless
   its first two octets show that it is overlong, and then it is longer than the encoding.
   */
  lemma AcceptedSequences(stale: nat, s: seq<Byte>, w: nat)
    requires Run(Dec(0, stale), s) == (Complete(w), |s|)
    ensures w < MAX_WCHAR && |s| >= Octets(w)
    ensures s == Encode(w) <==> |s| == Octets(w)
    ensures s == Encode(w) <==> !Overlong(s)
  {
    if s[0] >= 0x80 {
      AcceptedShape(stale, s, w);
      AcceptedLong(Announced(s[0]), s, w);
      ShorterIffOverlong(Announced(s[0]), s, w);
    } else {
      assert s == [s[0]] && w == s[0];
    }
  }

  /** The lead octets with the length they announce, and the octets that may follow. */
  predicate Announces(s: seq<Byte>)
  {
    |s| > 0 &&
    (if s[0] < 0x80 then |s| == 1
     else if 0xC0 <= s[0] < 0xE0 then |s| == 2
     else if 0xE0 <= s[0] < 0xF0 then |s| == 3
     else if 0xF0 <= s[0] < 0xF8 then |s| == 4
     else if 0xF8 <= s[0] < 0xFC then |s| == 5
     else 0xFC <= s[0] < 0xFE && |s| == 6)
    && forall i :: 1 <= i < |s| ==> 0x80 <= s[i] < 0xC0
  }

  /** The decoder takes a sequence as one character exactly if its octets announce it. */
  lemma AcceptedExactly(stale: nat, s: seq<Byte>)
    ensures (exists w :: Run(Dec(0, stale), s) == (Complete(w), |s|)) <==> Announces(s)
  {
    if s != [] && s[0] >= 0x80 {
      var n := Announced(s[0]);
      if 1 <= n <= 5 {
        var d := Dec(n, s[0] - LeadMark(n + 1));
        forall w
          ensures Run(d, s[1..]) == (Complete(w), |s[1..]|)
                  <==> |s[1..]| == n && AllContinuations(s[1..]) && w == Value(d.sofar, s[1..])
        {
          RunCompletes(d, s[1..], w);
        }
        assert AllContinuations(s[1..]) <==> forall i :: 1 <= i < |s| ==> IsContinuation(s[i]) by {
          assert forall i :: 1 <= i < |s| ==> s[i] == s[1..][i - 1];
        }
        assert forall w :: Run(Dec(0, stale), s) == (Complete(w), |s|) <==> Run(d, s[1..]) == (Complete(w), |s[1..]|);
        if Announces(s) {
          assert Run(Dec(0, stale), s) == (Complete(Value(d.sofar, s[1..])), |s|);
        }
      }
    } else if s != [] && |s| == 1 {
      assert Run(Dec(0, stale), s) == (Complete(s[0]), 1);
    }
  }

  /** How many values have an encoding of at most n octets. */
  lemma OctetsAtMost(n: nat, w: nat)
    requires 1 <= n <= 5 && w < MAX_WCHAR
    ensures Octets(w) <= n <==> w < Pow2(if n == 1 then 7 else 5 * n + 1)
  {
    Pow2Values();
    assert Pow2(7) == 0x80;
  }

  /** The lead octet and the octet behind it hold all the bits that would be clear in an overlong form. */
  lemma TopBits(n: nat, s: seq<Byte>, w: nat)
    requires 1 <= n <= 5 && |s| == n + 1 && s[1..] == Continuations(w, n)
    requires s[0] == LeadMark(n + 1) + Shr(w, 6 * n)
    ensures Shr(w, 6 * (n - 1)) == (s[0] - LeadMark(n + 1)) * 64 + (s[1] - 0x80)
    ensures 0x80 <= s[1] < 0xC0
  {
    assert s[1] == s[1..][0] == 0x80 + Group(w, n - 1);
    GroupStep(w, n, Shr(w, 6 * n), Group(w, n - 1));
  }

  lemma ShorterIffOverlong(n: nat, s: seq<Byte>, w: nat)
    requires 1 <= n <= 5 && |s| == n + 1 && s[1..] == Continuations(w, n) && w < MAX_WCHAR
    requires s[0] == LeadMark(n + 1) + Shr(w, 6 * n) && Shr(w, 6 * n) < Pow2(6 - n)
    ensures Octets(w) <= n <==> Overlong(s)
  {
    OctetsAtMost(n, w);
    Pow2Values();
    if n == 1 {
      ShrBound(w, 6, 1);
    } else {
      TopBits(n, s, w);
      ShrBound(w, 6 * (n - 1), 7 - n);
    }
  }

  lemma AcceptedLong(n: nat, s: seq<Byte>, w: nat)
    requires 1 <= n <= 5 && |s| == n + 1 && s[1..] == Continuations(w, n)
    requires s[0] == LeadMark(n + 1) + Shr(w, 6 * n) && Shr(w, 6 * n) < Pow2(6 - n)
    ensures w < MAX_WCHAR && |s| >= Octets(w)
    ensures s == Encode(w) <==> |s| == Octets(w)
  {
    OctetsSuffice(n, w);
    assert s == [s[0]] + s[1..];
    if Octets(w) == n + 1 {
      EncodeShape(w, n);
    }
  }

  lemma EncodeShape(w: nat, n: nat)
    requires w < MAX_WCHAR && n >= 1 && Octets(w) == n + 1
    ensures Encode(w) == [LeadMark(n + 1) + Shr(w, 6 * n)] + Continuations(w, n)
  {
  }

  lemma AcceptedShape(stale: nat, s: seq<Byte>, w: nat)
    requires Run(Dec(0, stale), s) == (Complete(w), |s|) && s[0] >= 0x80
    ensures var n := Announced(s[0]);
            1 <= n <= 5 && |s| == n + 1 && s[1..] == Continuations(w, n)
            && s[0] == LeadMark(n + 1) + Shr(w, 6 * n) && Shr(w, 6 * n) < Pow2(6 - n)
  {
    hide Value, Continuations, Shr, Pow2, Group, Octets;
    var n := Announced(s[0]);
    LeadValue(s[0]);
    assert Run(Dec(n, s[0] - LeadMark(n + 1)), s[1..]) == (Complete(w), |s[1..]|);
    RunCompletes(Dec(n, s[0] - LeadMark(n + 1)), s[1..], w);
    ValueIsGroups(s[0] - LeadMark(n + 1), s[1..], w);
  }

  /** The value bits that a lead octet has room for. */
  lemma LeadValue(c: Byte)
    requires c >= 0x80
    ensures var n := Announced(c); 1 <= n <= 5 ==> 0 <= c - LeadMark(n + 1) < Pow2(6 - n)
  {
    Pow2Values();
  }

  lemma OctetsSuffice(n: nat, w: nat)
    requires 1 <= n <= 5 && Shr(w, 6 * n) < Pow2(6 - n)
    ensures w < MAX_WCHAR && Octets(w) <= n + 1
  {
    ShrBound(w, 6 * n, 6 - n);
    Pow2Values();
  }

  /** Longer forms are accepted, which section 2 of RFC 2279 does not allow for. */
  lemma OverlongAccepted()
    ensures Run(Dec(0, 0), [0xC0, 0x81]) == (Complete(1), 2) && Octets(1) == 1
  {
    assert [0xC0, 0x81][1..] == [0x81];
    assert Run(Dec(1, 0), [0x81]) == (Complete(1), 1);
  }

  // ----- mbrtowc -----

  class MbState {
    var count: nat
    var sofar: nat

    constructor ()
      ensures State() == Dec(0, 0)
    {
      count, sofar := 0, 0;
    }

    function State(): Dec
      reads this
    {
      Dec(count, sofar)
    }

    /** One octet of the UTF-8 case: a rejected one, one that completes a character in sofar, or one among others. */
    method NextOctet(c: Byte) returns (illegal: bool, complete: bool)
      requires WellFormed(State())
      modifies this
      ensures match Take(old(State()), c)
              case Illegal(d) => illegal && State() == d
              case Pending(d) => !illegal && !complete && State() == d
              case Complete(v) => !illegal && complete && State() == Dec(0, v)
    {
      illegal, complete := false, false;
      if count != 0 {
        if !IsContinuation(c) {
          count := 0;
          return true, false;
        }
        sofar := sofar * 64 + c % 64;
        count := count - 1;
        complete := count == 0;
      } else if c >= 0x80 {
        var cnt, x := LeadOctet(c);
        if cnt == 0 || cnt > 5 {
          count := 0;
          return true, false;
        }
        sofar := Shr(x, cnt + 1);
        count := cnt;
      } else {
        sofar := c;
        complete := true;
      }
    }

    /**
     s is None for a null pointer, and r == -1 stands for (size_t)-1 with EILSEQ.  The
     character is reported in wc when the code stores one.  Running out of input returns
     the number of bytes given, not (size_t)-2.  In an 8-bit locale a byte is a character,
     and the state is left alone.
     */
    method MbRToWc(ctype: Ctype, s: Option<seq<Byte>>) returns (r: int, wc: Option<nat>)
      requires WellFormed(State())
      modifies this
      ensures WellFormed(State())
      ensures s.None? ==> wc == None
      ensures s.None? ==> r == if old(count) == 0 then 0 else -1
      ensures s.None? ==> State() == if old(count) == 0 then Dec(0, 0) else old(State())
      ensures s.Some? && ctype == CT_8BIT ==>
                State() == old(State())
                && (if s.value == [] then r == 0 && wc == None
                    else wc == Some(s.value[0]) && r == if s.value[0] == 0 then 0 else 1)
      ensures s.Some? && ctype == CT_UTF8 ==>
              var (p, used) := Run(old(State()), s.value);
              match p
              case Pending(d) => r == |s.value| && wc == None && State() == d
              case Illegal(d) => r == -1 && wc == None && State() == d
              case Complete(v) => r == (if v == 0 then 0 else used) && wc == Some(v) && State() == Dec(0, 0)
      ensures s.Some? && r == -1 ==> count == 0
    {
      if s.None? {
        if count != 0 { return -1, None; }
        count, sofar := 0, 0;
        return 0, None;
      }
      var bytes := s.value;
      ghost var d0 := State();
      IllegalForgets(d0, bytes);
      for i := 0 to |bytes|
        invariant WellFormed(State()) && (ctype == CT_8BIT ==> i == 0 && State() == d0)
        invariant Run(d0, bytes) == (Run(State(), bytes[i..]).0, i + Run(State(), bytes[i..]).1)
      {
        var c := bytes[i];
        if ctype == CT_8BIT {
          return if c != 0 then 1 else 0, Some(c);
        }
        ghost var d := State();
        RunStep(d, bytes, i);
        TakeKeepsWellFormed(d, c);
        var illegal, complete := NextOctet(c);
        if illegal {
          return -1, None;
        }
        if complete {
          wc := Some(sofar);
          if sofar != 0 {
            sofar := 0;
            return i + 1, wc;
          } else {
            count, sofar := 0, 0;
            return 0, wc;
          }
        }
      }
      return |bytes|, None;
    }
  }

  /** What is left of c in an unsigned char after k + 1 leading ones have been shifted out. */
  function Shifted(c: Byte, k: nat): int
    requires k <= 7
  {
    if k == 0 then 2 * c - 256 else if k == 1 then 4 * c - 768 else if k == 2 then 8 * c - 1792
    else if k == 3 then 16 * c - 3840 else if k == 4 then 32 * c - 7936 else if k == 5 then 64 * c - 16128
    else if k == 6 then 128 * c - 32512 else 256 * c - 65280
  }

  /** The loop that counts the leading ones of a lead octet by shifting it left. */
  method LeadOctet(c: Byte) returns (cnt: nat, x: nat)
    requires c >= 0x80
    ensures cnt == Announced(c)
    ensures 1 <= cnt <= 5 ==> Shr(x, cnt + 1) == c - LeadMark(cnt + 1)
  {
    x, cnt := (c * 2) % 256, 0;
    while x >= 0x80
      invariant cnt <= 7 && x == Shifted(c, cnt)
      invariant cnt > 0 ==> Shifted(c, cnt - 1) >= 0x80
      decreases x
    {
      ShiftByte(x);
      x, cnt := (x * 2) % 256, cnt + 1;
    }
    LeadCounted(c, cnt);
  }

  lemma ShiftByte(x: nat)
    requires 0x80 <= x < 0x100
    ensures (x * 2) % 256 == 2 * x - 256
  {
  }

  lemma LeadCounted(c: Byte, cnt: nat)
    requires 0x80 <= c && cnt <= 7 && 0 <= Shifted(c, cnt) < 0x80
    requires cnt > 0 ==> Shifted(c, cnt - 1) >= 0x80
    ensures cnt == Announced(c)
    ensures 1 <= cnt <= 5 ==> Shr(Shifted(c, cnt), cnt + 1) == c - LeadMark(cnt + 1)
  {
    ShrSmall(Shifted(c, cnt));
    assert cnt == 1 ==> Shifted(c, 1) == 4 * (c - 192);
    assert cnt == 2 ==> Shifted(c, 2) == 8 * (c - 224);
    assert cnt == 3 ==> Shifted(c, 3) == 16 * (c - 240);
    assert cnt == 4 ==> Shifted(c, 4) == 32 * (c - 248);
    assert cnt == 5 ==> Shifted(c, 5) == 64 * (c - 252);
  }

  // ----- encode, cut anywhere, decode -----

  function Flatten(chunks: seq<seq<Byte>>): seq<Byte>
  {
    if chunks == [] then [] else chunks[0] + Flatten(chunks[1..])
  }

  function Sum(rs: seq<int>): int
  {
    if rs == [] then 0 else rs[0] + Sum(rs[1..])
  }

  /** As long as input is missing, the part fed so far never completes or fails. */
  lemma PrefixPending(d: Dec, a: seq<Byte>, b: seq<Byte>, w: nat)
    requires Run(d, a + b) == (Complete(w), |a| + |b|)
    ensures b != [] ==> Run(d, a).0.Pending? && Run(Run(d, a).0.d, b) == (Complete(w), |b|)
    ensures b == [] ==> Run(d, a) == (Complete(w), |a|)
  {
    RunResumes(d, a, b);
  }

  lemma FlattenNonempty(chunks: seq<seq<Byte>>)
    requires chunks != [] && chunks[0] != []
    ensures Flatten(chunks) != []
  {
  }

  /**
   Successive calls on the encoding of w != 0 cut into any non-empty chunks: every call
   returns the length of its chunk, only the last stores a character, and it is w.
   */
  method DecodeChunks(ps: MbState, chunks: seq<seq<Byte>>, ghost w: nat) returns (rs: seq<int>, wcs: seq<Option<nat>>)
    requires 0 < w < MAX_WCHAR && Flatten(chunks) == Encode(w)
    requires forall i :: 0 <= i < |chunks| ==> chunks[i] != []
    requires WellFormed(ps.State()) && ps.count == 0
    modifies ps
    ensures |rs| == |wcs| == |chunks| > 0 && ps.State() == Dec(0, 0)
    ensures forall i :: 0 <= i < |chunks| ==> rs[i] == |chunks[i]|
    ensures forall i :: 0 <= i < |chunks| ==> wcs[i] == if i == |chunks| - 1 then Some(w) else None
  {
    rs, wcs := [], [];
    DecodeEncode(ps.sofar, w);
    assert chunks[0..] == chunks;
    for i := 0 to |chunks|
      invariant WellFormed(ps.State())
      invariant |rs| == |wcs| == i
      invariant i < |chunks| ==> Run(ps.State(), Flatten(chunks[i..])) == (Complete(w), |Flatten(chunks[i..])|)
      invariant i == |chunks| ==> i > 0 && ps.State() == Dec(0, 0)
      invariant forall k :: 0 <= k < i ==> rs[k] == |chunks[k]|
      invariant forall k :: 0 <= k < i ==> wcs[k] == if k == |chunks| - 1 then Some(w) else None
    {
      ghost var rest := chunks[i + 1..];
      assert chunks[i..][1..] == rest;
      PrefixPending(ps.State(), chunks[i], Flatten(rest), w);
      if rest != [] { FlattenNonempty(rest); }
      var r, wc := ps.MbRToWc(CT_UTF8, Some(chunks[i]));
      rs, wcs := rs + [r], wcs + [wc];
    }
  }

  /** A rejected sequence spoils nothing: the encoding that is fed next gives back its character. */
  method RejectThenDecode(ps: MbState, bad: seq<Byte>, chunks: seq<seq<Byte>>, ghost w: nat)
    returns (r: int, rs: seq<int>, wcs: seq<Option<nat>>)
    requires 0 < w < MAX_WCHAR && Flatten(chunks) == Encode(w)
    requires forall i :: 0 <= i < |chunks| ==> chunks[i] != []
    requires WellFormed(ps.State()) && Run(ps.State(), bad).0.Illegal?
    modifies ps
    ensures r == -1 && |rs| == |wcs| == |chunks| > 0 && ps.State() == Dec(0, 0)
    ensures forall i :: 0 <= i < |chunks| ==> rs[i] == |chunks[i]|
    ensures forall i :: 0 <= i < |chunks| ==> wcs[i] == if i == |chunks| - 1 then Some(w) else None
  {
    var wc;
    r, wc := ps.MbRToWc(CT_UTF8, Some(bad));
    rs, wcs := DecodeChunks(ps, chunks, w);
  }

  /** In an 8-bit locale a byte that is stored is read back. */
  method EightBitRoundTrip(ps: MbState, s: array<Byte>, w: Byte) returns (r: int, wc: Option<nat>)
    requires s.Length >= 1 && WellFormed(ps.State())
    modifies ps, s
    ensures wc == Some(w) && r == (if w == 0 then 0 else 1) && ps.State() == old(ps.State())
  {
    var n := WcRToMb(CT_8BIT, s, w);
    r, wc := ps.MbRToWc(CT_8BIT, Some(s[..n]));
  }

  // ----- the octets in plain numbers -----

  lemma SixShift(w: nat, k: nat)
    ensures Shr(w, 6 * (k + 1)) == Shr(w, 6 * k) / 64
  {
    ShrShr(w, 6 * k, 6);
    ShrSmall(Shr(w, 6 * k));
  }

  /** The groups of a character as repeated division by 64 gives them. */
  lemma SixBitGroups(w: nat, q1: nat, q2: nat, q3: nat, q4: nat, q5: nat)
    requires q1 == w / 64 && q2 == q1 / 64 && q3 == q2 / 64 && q4 == q3 / 64 && q5 == q4 / 64
    ensures Shr(w, 6) == q1 && Shr(w, 12) == q2 && Shr(w, 18) == q3 && Shr(w, 24) == q4 && Shr(w, 30) == q5
    ensures Group(w, 0) == w % 64 && Group(w, 1) == q1 % 64 && Group(w, 2) == q2 % 64
    ensures Group(w, 3) == q3 % 64 && Group(w, 4) == q4 % 64
  {
    hide Shr;
    ShrNone(w);
    SixShift(w, 0);
    SixShift(w, 1);
    SixShift(w, 2);
    SixShift(w, 3);
    SixShift(w, 4);
  }

  lemma ShrNone(w: nat)
    ensures Shr(w, 0) == w
  {
  }

  lemma ContinuationsTable(w: nat)
    ensures Continuations(w, 1) == [0x80 + Group(w, 0)]
    ensures Continuations(w, 2) == [0x80 + Group(w, 1), 0x80 + Group(w, 0)]
    ensures Continuations(w, 3) == [0x80 + Group(w, 2), 0x80 + Group(w, 1), 0x80 + Group(w, 0)]
    ensures Continuations(w, 4) == [0x80 + Group(w, 3), 0x80 + Group(w, 2), 0x80 + Group(w, 1), 0x80 + Group(w, 0)]
    ensures Continuations(w, 5)
            == [0x80 + Group(w, 4), 0x80 + Group(w, 3), 0x80 + Group(w, 2), 0x80 + Group(w, 1), 0x80 + Group(w, 0)]
  {
    hide Group;
  }

  lemma EncodeOctets(w: nat)
    requires w < MAX_WCHAR
    ensures w < 0x80 ==> Encode(w) == [w]
    ensures w >= 0x80 ==> LeadMark(Octets(w)) + Shr(w, 6 * (Octets(w) - 1)) < 256
    ensures w >= 0x80 ==>
              Encode(w) == [LeadMark(Octets(w)) + Shr(w, 6 * (Octets(w) - 1))] + Continuations(w, Octets(w) - 1)
  {
    hide Shr, Continuations, Octets, LeadMark;
    if w >= 0x80 {
      LeadFits(w);
    }
  }

  /** The encoding of each range, as the table in section 2 of RFC 2279 lays the bits out. */
  lemma EncodingTable(w: nat, q1: nat, q2: nat, q3: nat, q4: nat, q5: nat)
    requires w < MAX_WCHAR
    requires q1 == w / 64 && q2 == q1 / 64 && q3 == q2 / 64 && q4 == q3 / 64 && q5 == q4 / 64
    ensures q5 < 2
    ensures w < 0x80 ==> Encode(w) == [w]
    ensures 0x80 <= w < 0x800 ==> Encode(w) == [0xC0 + q1, 0x80 + w % 64]
    ensures 0x800 <= w < 0x1_0000 ==> Encode(w) == [0xE0 + q2, 0x80 + q1 % 64, 0x80 + w % 64]
    ensures 0x1_0000 <= w < 0x20_0000 ==> Encode(w) == [0xF0 + q3, 0x80 + q2 % 64, 0x80 + q1 % 64, 0x80 + w % 64]
    ensures 0x20_0000 <= w < 0x400_0000 ==>
              Encode(w) == [0xF8 + q4, 0x80 + q3 % 64, 0x80 + q2 % 64, 0x80 + q1 % 64, 0x80 + w % 64]
    ensures 0x400_0000 <= w ==>
              Encode(w) == [0xFC + q5, 0x80 + q4 % 64, 0x80 + q3 % 64, 0x80 + q2 % 64, 0x80 + q1 % 64, 0x80 + w % 64]
  {
    hide Shr, Group, Continuations, Encode;
    SixBitGroups(w, q1, q2, q3, q4, q5);
    ContinuationsTable(w);
    EncodeOctets(w);
  }

  /** The counts those calls return add up to the length of the encoding. */
  lemma {:induction false} ChunkLengths(chunks: seq<seq<Byte>>, rs: seq<int>)
    requires |rs| == |chunks| && forall i :: 0 <= i < |chunks| ==> rs[i] == |chunks[i]|
    ensures Sum(rs) == |Flatten(chunks)|
  {
    if chunks != [] {
      ChunkLengths(chunks[1..], rs[1..]);
    }
  }
}

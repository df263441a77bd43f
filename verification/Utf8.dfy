/** The UTF-8 validator of the message catalog, against the encoding itself. */
module Utf8 {
  import opened Bytes

  /** A Unicode scalar value: any code point but the surrogates. */
  type scalar = v: int | 0 <= v <= 0x10FFFF && !(0xD800 <= v <= 0xDFFF)

  function Octet(x: int): byte
    requires 0 <= x < 256
  {
    x
  }

  /** Section 3 of RFC 3629: one scalar value as one to four octets, six bits
    * to a continuation octet. */
  function Encode(v: scalar): seq<byte> {
    var (lo, v1) := (v % 64, v / 64);
    var (mid, v2) := (v1 % 64, v1 / 64);
    var (high, v3) := (v2 % 64, v2 / 64);
    if v < 0x80 then [Octet(v)]
    else if v < 0x800 then [Octet(0xC0 + v1), Octet(0x80 + lo)]
    else if v < 0x10000 then [Octet(0xE0 + v2), Octet(0x80 + mid), Octet(0x80 + lo)]
    else [Octet(0xF0 + v3), Octet(0x80 + high), Octet(0x80 + mid), Octet(0x80 + lo)]
  }

  function EncodeAll(vs: seq<scalar>): seq<byte> {
    if vs == [] then [] else Encode(vs[0]) + EncodeAll(vs[1..])
  }

  // ---- the validator's reading of one sequence ----

  /** A lead byte: how many bytes continue it, the bits it carries, and the
    * least code point its length may encode. */
  datatype Lead = BadLead | Lead(n: nat, bits: nat, min: nat)

  function LeadOf(c: byte): Lead {
    if c < 0x80 then Lead(0, c, 0)
    else if c / 32 == 6 then Lead(1, c % 32, 0x80)
    else if c / 16 == 14 then Lead(2, c % 16, 0x800)
    else if c / 8 == 30 then Lead(3, c % 8, 0x10000)
    else BadLead
  }

  predicate IsContinuation(c: byte) { c / 64 == 2 }

  /** The code point after `k` continuation bytes. */
  function Gather(s: seq<byte>, bits: nat, k: nat): nat
    requires k < |s|
  {
    if k == 0 then bits else Gather(s, bits, k - 1) * 64 + s[k] % 64
  }

  /** The length of the well-formed sequence `s` starts with, or 0. */
  function SequenceLength(s: seq<byte>): (n: nat)
    requires s != []
    ensures n <= |s|
  {
    var l := LeadOf(s[0]);
    if l.BadLead? || l.n >= |s| then 0
    else if exists k | 1 <= k <= l.n :: !IsContinuation(s[k]) then 0
    else
      var cp := Gather(s, l.bits, l.n);
      if cp < l.min || 0xD800 <= cp <= 0xDFFF || cp > 0x10FFFF then 0 else l.n + 1
  }

  predicate Valid(s: seq<byte>)
    decreases |s|
  {
    s == [] || (SequenceLength(s) > 0 && Valid(s[SequenceLength(s)..]))
  }

  // ---- one sequence is one scalar value ----

  /** The gathered code point written out. */
  lemma {:induction false} GatherIs(s: seq<byte>, bits: nat, n: nat)
    requires 0 <= n <= 3 && n < |s|
    ensures n == 0 ==> Gather(s, bits, n) == bits
    ensures n == 1 ==> Gather(s, bits, n) == bits * 64 + s[1] % 64
    ensures n == 2 ==> Gather(s, bits, n) == (bits * 64 + s[1] % 64) * 64 + s[2] % 64
    ensures n == 3 ==> Gather(s, bits, n) == ((bits * 64 + s[1] % 64) * 64 + s[2] % 64) * 64 + s[3] % 64
  {
    assert n >= 1 ==> Gather(s, bits, 1) == Gather(s, bits, 0) * 64 + s[1] % 64;
    assert n >= 2 ==> Gather(s, bits, 2) == Gather(s, bits, 1) * 64 + s[2] % 64;
  }

  lemma Digit(q: int, d: int)
    requires 0 <= d < 64
    ensures (q * 64 + d) / 64 == q && (q * 64 + d) % 64 == d
  {
  }

  /** The two bytes of a code point below 0x800. */
  lemma {:induction false} Bytes2(a: byte, b: byte, v: scalar)
    requires a / 32 == 6 && b / 64 == 2 && v == (a % 32) * 64 + b % 64 && v >= 0x80
    ensures Encode(v) == [a, b]
  {
    Digit(a % 32, b % 64);
    assert v < 0x800;
  }

  lemma {:induction false} Bytes3(a: byte, b: byte, c: byte, v: scalar)
    requires a / 16 == 14 && b / 64 == 2 && c / 64 == 2
    requires v == ((a % 16) * 64 + b % 64) * 64 + c % 64 && v >= 0x800
    ensures Encode(v) == [a, b, c]
  {
    Digit((a % 16) * 64 + b % 64, c % 64);
    Digit(a % 16, b % 64);
    assert v < 0x10000;
  }

  lemma {:induction false} Bytes4(a: byte, b: byte, c: byte, d: byte, v: scalar)
    requires a / 8 == 30 && b / 64 == 2 && c / 64 == 2 && d / 64 == 2
    requires v == (((a % 8) * 64 + b % 64) * 64 + c % 64) * 64 + d % 64 && v >= 0x10000
    ensures Encode(v) == [a, b, c, d]
  {
    Digit(((a % 8) * 64 + b % 64) * 64 + c % 64, d % 64);
    Digit((a % 8) * 64 + b % 64, c % 64);
    Digit(a % 8, b % 64);
  }

  lemma {:induction false} SequenceDecodes(s: seq<byte>) returns (v: scalar)
    requires s != [] && SequenceLength(s) > 0
    ensures Encode(v) == s[..SequenceLength(s)]
  {
    hide Gather, Encode;
    var l := LeadOf(s[0]);
    assert forall k | 1 <= k <= l.n :: IsContinuation(s[k]);
    GatherIs(s, l.bits, l.n);
    v := Gather(s, l.bits, l.n);
    if l.n == 0 {
      OneByte(s[0]);
    } else if l.n == 1 {
      Bytes2(s[0], s[1], v);
    } else if l.n == 2 {
      Bytes3(s[0], s[1], s[2], v);
    } else {
      Bytes4(s[0], s[1], s[2], s[3], v);
    }
  }

  lemma OneByte(a: byte)
    requires a < 0x80
    ensures Encode(a) == [a]
  {
  }

  lemma LeadsRead(x: nat)
    ensures x < 32 ==> LeadOf(0xC0 + x) == Lead(1, x, 0x80)
    ensures x < 16 ==> LeadOf(0xE0 + x) == Lead(2, x, 0x800)
    ensures x < 8 ==> LeadOf(0xF0 + x) == Lead(3, x, 0x10000)
  {
  }

  lemma OneByteRead(c: byte)
    requires c < 0x80
    ensures LeadOf(c) == Lead(0, c, 0)
  {
  }

  lemma ContinuationsRead(d: nat)
    requires d < 64
    ensures IsContinuation(0x80 + d) && (0x80 + d) % 64 == d
  {
  }

  /** Well-formed bytes `s` start with, read off their lead and continuations. */
  lemma {:induction false} Reads(s: seq<byte>, l: Lead, v: scalar)
    requires s != [] && LeadOf(s[0]) == l && l.Lead? && l.n < |s|
    requires forall k | 1 <= k <= l.n :: IsContinuation(s[k])
    requires Gather(s, l.bits, l.n) == v && v >= l.min
    ensures SequenceLength(s) == l.n + 1
  {
    hide Gather, LeadOf;
  }

  /** The bytes of an encoding, whatever follows it. */
  lemma {:induction false} EncodedBytes(v: scalar, t: seq<byte>)
    ensures forall k | 0 <= k < |Encode(v)| :: (Encode(v) + t)[k] == Encode(v)[k]
    ensures |Encode(v)| == if v < 0x80 then 1 else if v < 0x800 then 2 else if v < 0x10000 then 3 else 4
  {
  }

  lemma {:induction false} ShortIsSequence(v: scalar, t: seq<byte>)
    requires v < 0x800
    ensures var s := Encode(v) + t;
            SequenceLength(s) == |Encode(v)| && Gather(s, LeadOf(s[0]).bits, |Encode(v)| - 1) == v
  {
    hide Gather, SequenceLength, IsContinuation, LeadOf;
    var s := Encode(v) + t;
    EncodedBytes(v, t);
    ContinuationsRead(v % 64);
    if v < 0x80 {
      OneByteRead(v);
      GatherIs(s, v, 0);
      Reads(s, Lead(0, v, 0), v);
    } else {
      LeadsRead(v / 64);
      GatherIs(s, v / 64, 1);
      Reads(s, Lead(1, v / 64, 0x80), v);
    }
  }

  lemma {:induction false} LongIsSequence(v: scalar, t: seq<byte>)
    requires v >= 0x800
    ensures var s := Encode(v) + t;
            SequenceLength(s) == |Encode(v)| && Gather(s, LeadOf(s[0]).bits, |Encode(v)| - 1) == v
  {
    hide Gather, SequenceLength, IsContinuation, LeadOf;
    var s := Encode(v) + t;
    EncodedBytes(v, t);
    var (v1, v2) := (v / 64, v / 64 / 64);
    ContinuationsRead(v % 64);
    ContinuationsRead(v1 % 64);
    ContinuationsRead(v2 % 64);
    if v < 0x10000 {
      LeadsRead(v2);
      GatherIs(s, v2, 2);
      Reads(s, Lead(2, v2, 0x800), v);
    } else {
      LeadsRead(v2 / 64);
      GatherIs(s, v2 / 64, 3);
      Reads(s, Lead(3, v2 / 64, 0x10000), v);
    }
  }

  lemma {:induction false} EncodingIsSequence(v: scalar, t: seq<byte>)
    ensures SequenceLength(Encode(v) + t) == |Encode(v)|
    ensures Gather(Encode(v) + t, LeadOf((Encode(v) + t)[0]).bits, |Encode(v)| - 1) == v
  {
    hide Gather, SequenceLength, LeadOf, Encode;
    if v < 0x800 {
      ShortIsSequence(v, t);
    } else {
      LongIsSequence(v, t);
    }
  }

  lemma {:induction false} EncodeInjective(v: scalar, w: scalar)
    requires Encode(v) == Encode(w)
    ensures v == w
  {
    EncodingIsSequence(v, []);
    EncodingIsSequence(w, []);
  }

  // ---- and so is a whole string ----

  lemma {:induction false} ValidDecodes(s: seq<byte>) returns (vs: seq<scalar>)
    requires Valid(s)
    ensures EncodeAll(vs) == s
    decreases |s|
  {
    vs := [];
    if s != [] {
      var n := SequenceLength(s);
      var v := SequenceDecodes(s);
      vs := ValidDecodes(s[n..]);
      vs := [v] + vs;
      assert s == s[..n] + s[n..];
    }
  }

  lemma {:induction false} EncodingIsValid(vs: seq<scalar>)
    ensures Valid(EncodeAll(vs))
  {
    if vs != [] {
      var rest := EncodeAll(vs[1..]);
      EncodingIsSequence(vs[0], rest);
      EncodingIsValid(vs[1..]);
      assert (Encode(vs[0]) + rest)[|Encode(vs[0])|..] == rest;
    }
  }

  /** The validator accepts exactly the encodings of scalar values. */
  lemma {:induction false} ValidIffEncoding(s: seq<byte>)
    ensures Valid(s) <==> exists vs :: EncodeAll(vs) == s
  {
    if Valid(s) {
      var vs := ValidDecodes(s);
    }
    if exists vs :: EncodeAll(vs) == s {
      var vs :| EncodeAll(vs) == s;
      EncodingIsValid(vs);
    }
  }

  /** A string has one reading: no two sequences of scalar values encode alike. */
  lemma {:induction false} DecodingUnique(vs: seq<scalar>, ws: seq<scalar>)
    requires EncodeAll(vs) == EncodeAll(ws)
    ensures vs == ws
  {
    if vs != [] && ws != [] {
      EncodingIsSequence(vs[0], EncodeAll(vs[1..]));
      EncodingIsSequence(ws[0], EncodeAll(ws[1..]));
      var (s, n) := (EncodeAll(vs), |Encode(vs[0])|);
      assert s[..n] == Encode(vs[0]) && s[..n] == Encode(ws[0]);
      EncodeInjective(vs[0], ws[0]);
      assert s[n..] == EncodeAll(vs[1..]) && s[n..] == EncodeAll(ws[1..]);
      DecodingUnique(vs[1..], ws[1..]);
      assert vs == [vs[0]] + vs[1..] && ws == [ws[0]] + ws[1..];
    }
  }

  /** What the inner loop leaves when it meets a byte that continues nothing. */
  lemma {:induction false} BreaksOff(s: seq<byte>, k: int)
    requires s != []
    requires LeadOf(s[0]).BadLead? || LeadOf(s[0]).n >= |s|
             || (1 <= k <= LeadOf(s[0]).n && !IsContinuation(s[k]))
    ensures !Valid(s)
  {
  }

  /** A sequence the loop accepts is stepped over; one it rejects ends it. */
  lemma {:induction false} StepsOver(s: seq<byte>, i: nat, l: Lead, cp: int)
    requires i < |s| && LeadOf(s[i]) == l && l.Lead? && i + l.n < |s|
    requires forall j | 1 <= j <= l.n :: IsContinuation(s[i..][j])
    requires cp == Gather(s[i..], l.bits, l.n)
    ensures Valid(s[i..]) == (!(cp < l.min || 0xD800 <= cp <= 0xDFFF || cp > 0x10FFFF) && Valid(s[i + l.n + 1..]))
  {
    hide Gather, LeadOf, IsContinuation;
    var t := s[i..];
    assert t[l.n + 1..] == s[i + l.n + 1..];
  }

  /** The index loop of the reader. */
  method ValidUtf8(s: seq<byte>) returns (ok: bool)
    ensures ok <==> exists vs :: EncodeAll(vs) == s
  {
    hide Valid, SequenceLength, Gather, EncodeAll;
    ok := Scan(s);
    ValidIffEncoding(s);
  }

  method Scan(s: seq<byte>) returns (ok: bool)
    ensures ok == Valid(s)
  {
    hide Gather, SequenceLength;
    var i := 0;
    assert s[0..] == s;
    while i < |s|
      invariant 0 <= i <= |s| && Valid(s[i..]) == Valid(s)
    {
      hide Valid;
      var c := s[i];
      ghost var t := s[i..];
      ghost var l := LeadOf(c);
      var n: nat, min: nat, cp: nat;
      if c < 0x80 {
        GatherIs(t, l.bits, 0);
        StepsOver(s, i, l, c);
        i := i + 1;
        continue;
      } else if c / 32 == 6 {
        n, cp, min := 1, c % 32, 0x80;
      } else if c / 16 == 14 {
        n, cp, min := 2, c % 16, 0x800;
      } else if c / 8 == 30 {
        n, cp, min := 3, c % 8, 0x10000;
      } else {
        BreaksOff(t, 0);
        return false;
      }
      if i + n >= |s| {
        BreaksOff(t, 0);
        return false;
      }
      GatherIs(t, l.bits, 0);
      for k := 1 to n + 1
        invariant cp == Gather(t, l.bits, k - 1)
        invariant forall j | 1 <= j < k :: IsContinuation(t[j])
      {
        var cont := s[i + k];
        if cont / 64 != 2 {
          BreaksOff(t, k);
          return false;
        }
        Gathers(t, l.bits, k);
        cp := cp * 64 + cont % 64;
      }
      StepsOver(s, i, l, cp);
      if cp < min || (cp >= 0xD800 && cp <= 0xDFFF) || cp > 0x10FFFF {
        return false;
      }
      i := i + n + 1;
    }
    return true;
  }

  lemma {:induction false} Gathers(s: seq<byte>, bits: nat, k: nat)
    requires 0 < k < |s|
    ensures Gather(s, bits, k) == Gather(s, bits, k - 1) * 64 + s[k] % 64
  {
  }
}

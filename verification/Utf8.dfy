/** The UTF-8 decoder ssfn_utf8 of kernel/hw/gfx/ssfn.h against the encoding of RFC 3629, section 3.
    Masks and shifts of bytes are written as remainders and quotients. */
module Utf8 {
  import opened Arithmetic

  type Byte = b: int | 0 <= b < 256

  /** What the first byte says: its payload bits and the number of continuation bytes. */
  function Lead(b: Byte): (r: (nat, nat))
    ensures r.1 <= 3
  {
    if b / 0x80 % 2 == 0 then (b, 0)
    else if b / 0x20 % 2 == 0 then (b % 0x20, 1)
    else if b / 0x10 % 2 == 0 then (b % 0x10, 2)
    else if b / 0x08 % 2 == 0 then (b % 0x08, 3)
    else (0, 0)
  }

  predicate IsContinuation(b: Byte) {
    b / 0x40 == 2
  }

  /** A NUL-terminated string starts at position i of the memory s. */
  predicate Terminated(s: seq<Byte>, i: nat) {
    i < |s| && s[|s| - 1] == 0
  }

  /** Position of the terminator of the string at i. */
  function Terminator(s: seq<Byte>, i: nat): (t: nat)
    requires Terminated(s, i)
    ensures i <= t < |s| && s[t] == 0 && forall k | i <= k < t :: s[k] != 0
    decreases |s| - i
  {
    if s[i] == 0 then i else Terminator(s, i + 1)
  }

  /** n more continuation bytes from position j on; 0 at the first byte that is not one. */
  function Continue(s: seq<Byte>, j: nat, n: nat, c: nat): (r: (nat, nat))
    ensures j <= r.1 <= j + n
    decreases n
  {
    if n == 0 then (c, j)
    else if j >= |s| || !IsContinuation(s[j]) then (0, j)
    else Continue(s, j + 1, n - 1, c * 0x40 + s[j] % 0x40)
  }

  /** The code point at i and the position behind it. */
  function DecodeAt(s: seq<Byte>, i: nat): (r: (nat, nat))
    requires i < |s|
    ensures i < r.1 <= i + 4
  {
    Continue(s, i + 1, Lead(s[i]).1, Lead(s[i]).0)
  }

  /** ssfn_utf8 */
  method Decode(s: array<Byte>, i: nat) returns (c: nat, j: nat)
    requires Terminated(s[..], i)
    ensures (c, j) == DecodeAt(s[..], i)
    ensures s[i] != 0 ==> i < j <= Terminator(s[..], i)
  {
    ghost var m := s[..];
    ghost var t := Terminator(m, i);
    c := s[i];
    var n := 0;
    if c / 0x80 % 2 != 0 {
      if c / 0x20 % 2 == 0 {
        c, n := c % 0x20, 1;
      } else if c / 0x10 % 2 == 0 {
        c, n := c % 0x10, 2;
      } else if c / 0x08 % 2 == 0 {
        c, n := c % 0x08, 3;
      } else {
        c := 0;
      }
    }
    j := i + 1;
    var k := 0;
    while k < n
      invariant k <= n && j == i + 1 + k && (n > 0 ==> m[i] != 0) && (m[i] != 0 ==> j <= t)
      invariant DecodeAt(m, i) == Continue(m, j, n - k, c)
    {
      if s[j] / 0x40 != 2 {
        return 0, j;
      }
      c := c * 0x40 + s[j] % 0x40;
      k := k + 1;
      j := j + 1;
    }
  }

  /** On any NUL-terminated bytes a call moves forward and not past the terminator. */
  lemma StaysInside(s: seq<Byte>, i: nat)
    requires Terminated(s, i) && s[i] != 0
    ensures i < DecodeAt(s, i).1 <= Terminator(s, i)
  {
    ContinueStaysInside(s, i + 1, Lead(s[i]).1, Lead(s[i]).0, Terminator(s, i));
  }

  lemma {:induction false} ContinueStaysInside(s: seq<Byte>, j: nat, n: nat, c: nat, t: nat)
    requires j <= t < |s| && s[t] == 0
    ensures Continue(s, j, n, c).1 <= t
    decreases n
  {
    if n > 0 && IsContinuation(s[j]) {
      ContinueStaysInside(s, j + 1, n - 1, c * 0x40 + s[j] % 0x40, t);
    }
  }

  /** A sequence cut short decodes to 0 and leaves the position on the byte that cut it. */
  lemma {:induction false} CutShort(s: seq<Byte>, j: nat, n: nat, c: nat, k: nat)
    requires k < n && j + k < |s| && !IsContinuation(s[j + k]) && forall l | j <= l < j + k :: IsContinuation(s[l])
    ensures Continue(s, j, n, c) == (0, j + k)
    decreases n
  {
    if k > 0 {
      CutShort(s, j + 1, n - 1, c * 0x40 + s[j] % 0x40, k - 1);
    }
  }

  /** How many continuation bytes a first byte calls for.  A stray continuation byte is taken for the first byte
      that has the same six low bits. */
  ghost function Following(b: Byte): nat {
    if b < 0x80 || b % 0x40 >= 0x38 then 0 else if b % 0x40 < 0x20 then 1 else if b % 0x40 < 0x30 then 2 else 3
  }

  /** The payload of the first byte. */
  ghost function Payload(b: Byte): nat {
    if b < 0x80 then b else match Following(b) case 0 => 0 case 1 => b % 0x20 case 2 => b % 0x10 case _ => b % 0x08
  }

  lemma LeadTable(b: Byte)
    ensures Lead(b) == (Payload(b), Following(b))
  {
    var h, q := b as int / 0x40, b as int % 0x40;
    LowBit(h, q, 0x20, 2);
    LowBit(h, q, 0x10, 4);
    LowBit(h, q, 0x08, 8);
  }

  lemma LowBit(h: nat, q: nat, unit: nat, k: nat)
    requires unit > 0 && k % 2 == 0 && unit * k == 0x40 && q < 0x40
    ensures (0x40 * h + q) / unit % 2 == q / unit % 2
  {
    assert h * k * unit == 0x40 * h;
    AddMultiple(q, unit, h * k);
    var m := k / 2;
    assert h * k == h * m * 2;
    AddMultiple(q / unit, 2, h * m);
  }

  /** What arbitrary bytes decode to.  A single byte stands for itself below 0x80 and for 0 otherwise; a complete sequence
      joins its payload bits, overlong or not; DecodeCutShort is the case of one cut short. */
  lemma DecodeBytes(s: seq<Byte>, i: nat)
    requires i < |s| && i + Following(s[i]) < |s|
    requires forall k | i < k <= i + Following(s[i]) :: 0x80 <= s[k] < 0xC0
    ensures var n := Following(s[i]);
            && DecodeAt(s, i).1 == i + 1 + n
            && DecodeAt(s, i).0 == (if n == 0 then Payload(s[i])
                                    else if n == 1 then Payload(s[i]) * 0x40 + Low(s, i + 1)
                                    else if n == 2 then Payload(s[i]) * 0x1000 + Low(s, i + 1) * 0x40 + Low(s, i + 2)
                                    else Payload(s[i]) * 0x4_0000 + Low(s, i + 1) * 0x1000 + Low(s, i + 2) * 0x40 + Low(s, i + 3))
  {
    LeadTable(s[i]);
    var n, c := Following(s[i]), Payload(s[i]);
    hide Lead, Following, Payload, Low;
    if n >= 1 {
      ContinuesWith(s, i + 1, n, c);
    }
    if n >= 2 {
      ContinuesWith(s, i + 2, n - 1, c * 0x40 + Low(s, i + 1));
    }
    if n >= 3 {
      ContinuesWith(s, i + 3, n - 2, (c * 0x40 + Low(s, i + 1)) * 0x40 + Low(s, i + 2));
    }
  }

  /** The low six bits of a byte. */
  ghost function Low(s: seq<Byte>, j: nat): nat
    requires j < |s|
  {
    s[j] % 0x40
  }

  lemma ContinuesWith(s: seq<Byte>, j: nat, n: nat, c: nat)
    requires n > 0 && j < |s| && 0x80 <= s[j] < 0xC0
    ensures Continue(s, j, n, c) == Continue(s, j + 1, n - 1, c * 0x40 + Low(s, j))
    ensures n == 1 ==> Continue(s, j, n, c) == (c * 0x40 + Low(s, j), j + 1)
  {
  }

  /** A sequence cut short after k continuation bytes decodes to 0 and ends at the byte that cut it. */
  lemma DecodeCutShort(s: seq<Byte>, i: nat, k: nat)
    requires i + 1 + k < |s| && k < Following(s[i]) && (forall l | i < l <= i + k :: 0x80 <= s[l] < 0xC0)
    requires s[i + 1 + k] < 0x80 || s[i + 1 + k] >= 0xC0
    ensures DecodeAt(s, i) == (0, i + 1 + k)
  {
    LeadTable(s[i]);
    hide Lead;
    assert forall l | i < l <= i + k :: IsContinuation(s[l]);
    CutShort(s, i + 1, Lead(s[i]).1, Lead(s[i]).0, k);
  }

  /** The code points the loop in Print hands on. */
  function DecodeAll(s: seq<Byte>, i: nat): (cs: seq<nat>)
    requires Terminated(s, i)
    decreases |s| - i
  {
    if s[i] == 0 then [] else
      StaysInside(s, i);
      [DecodeAt(s, i).0] + DecodeAll(s, DecodeAt(s, i).1)
  }

  // ---------------------------------------------------------------- encoding

  predicate Scalar(c: nat) {
    c < 0x11_0000 && !(0xD800 <= c < 0xE000)
  }

  /** The table of RFC 3629, section 3. */
  function Encode(c: nat): (b: seq<Byte>)
    requires Scalar(c)
    ensures 1 <= |b| <= 4 && (c != 0 ==> forall k | 0 <= k < |b| :: b[k] != 0)
  {
    if c < 0x80 then [c]
    else if c < 0x800 then [0xC0 + c / 0x40, 0x80 + c % 0x40]
    else if c < 0x1_0000 then [0xE0 + c / 0x1000, 0x80 + c / 0x40 % 0x40, 0x80 + c % 0x40]
    else [0xF0 + c / 0x4_0000, 0x80 + c / 0x1000 % 0x40, 0x80 + c / 0x40 % 0x40, 0x80 + c % 0x40]
  }

  /** A continuation byte carries the low six bits. */
  lemma ContinueStep(s: seq<Byte>, j: nat, n: nat, q: nat)
    requires j < |s| && n > 0 && s[j] == 0x80 + q % 0x40
    ensures Continue(s, j, n, q / 0x40) == Continue(s, j + 1, n - 1, q)
  {
    assert q / 0x40 * 0x40 + (0x80 + q % 0x40) % 0x40 == q;
  }

  lemma LeadOfEncoding(c: nat)
    requires Scalar(c)
    ensures var n := |Encode(c)|;
            Lead(Encode(c)[0]) == (if n == 1 then c else if n == 2 then c / 0x40 else if n == 3 then c / 0x1000 else c / 0x4_0000, n - 1)
  {
    if 0x80 <= c < 0x800 {
      LeadByte(c / 0x40);
    } else if 0x800 <= c < 0x1_0000 {
      LeadByte(c / 0x1000);
    } else if 0x1_0000 <= c {
      LeadByte(c / 0x4_0000);
    }
    hide Lead;
  }

  lemma LeadByte(q: nat)
    ensures q < 0x20 ==> Lead(0xC0 + q) == (q, 1)
    ensures q < 0x10 ==> Lead(0xE0 + q) == (q, 2)
    ensures q < 0x08 ==> Lead(0xF0 + q) == (q, 3)
  {
  }

  lemma Sextets(c: nat)
    ensures c / 0x1000 == c / 0x40 / 0x40 && c / 0x4_0000 == c / 0x1000 / 0x40
  {
  }

  /** Decoding inverts encoding, wherever the bytes stand. */
  lemma DecodeEncode(s: seq<Byte>, i: nat, c: nat)
    requires Scalar(c) && i + |Encode(c)| <= |s| && s[i..i + |Encode(c)|] == Encode(c)
    ensures DecodeAt(s, i) == (c, i + |Encode(c)|)
  {
    hide *;
    var n := |Encode(c)|;
    Sextets(c);
    LeadOfEncoding(c);
    DecodesFrom(s, i, Encode(c)[0]);
    assert s[i] == s[i..i + n][0];
    if n >= 4 {
      TailByte(s, i, c, n - 3);
      ContinueStep(s, i + n - 3, 3, c / 0x1000);
    }
    if n >= 3 {
      TailByte(s, i, c, n - 2);
      ContinueStep(s, i + n - 2, 2, c / 0x40);
    }
    if n >= 2 {
      TailByte(s, i, c, n - 1);
      ContinueStep(s, i + n - 1, 1, c);
    }
    ContinueDone(s, i + n, c);
  }

  lemma TailByte(s: seq<Byte>, i: nat, c: nat, k: nat)
    requires Scalar(c) && i + |Encode(c)| <= |s| && s[i..i + |Encode(c)|] == Encode(c) && 0 < k < |Encode(c)|
    ensures var n := |Encode(c)|;
            s[i + k] == 0x80 + (if k == n - 1 then c else if k == n - 2 then c / 0x40 else c / 0x1000) % 0x40
  {
    assert s[i + k] == s[i..i + |Encode(c)|][k];
  }

  lemma DecodesFrom(s: seq<Byte>, i: nat, b: Byte)
    requires i < |s| && s[i] == b
    ensures DecodeAt(s, i) == Continue(s, i + 1, Lead(b).1, Lead(b).0)
  {
  }

  lemma ContinueDone(s: seq<Byte>, j: nat, c: nat)
    ensures Continue(s, j, 0, c) == (c, j)
  {
  }

  function EncodeAll(cs: seq<nat>): seq<Byte>
    requires forall c | c in cs :: Scalar(c)
  {
    if cs == [] then [] else Encode(cs[0]) + EncodeAll(cs[1..])
  }

  /** The loop recovers any encoded string without NUL. */
  lemma {:induction false} DecodeAllEncoded(s: seq<Byte>, i: nat, cs: seq<nat>)
    requires forall c | c in cs :: Scalar(c) && c != 0
    requires i < |s| && s[i..] == EncodeAll(cs) + [0]
    ensures Terminated(s, i) && DecodeAll(s, i) == cs
    decreases |cs|
  {
    hide Encode, DecodeAt;
    assert s[|s| - 1] == s[i..][|s| - i - 1];
    assert s[i] == s[i..][0];
    if cs != [] {
      assert cs[0] in cs;
      var e := Encode(cs[0]);
      assert s[i..] == e + (EncodeAll(cs[1..]) + [0]);
      Prefix(s, i, e, EncodeAll(cs[1..]) + [0]);
      DecodeEncode(s, i, cs[0]);
      DecodeAllEncoded(s, i + |e|, cs[1..]);
    }
  }

  lemma Prefix(s: seq<Byte>, i: nat, a: seq<Byte>, b: seq<Byte>)
    requires i <= |s| && s[i..] == a + b
    ensures i + |a| + |b| == |s| && s[i..i + |a|] == a && s[i + |a|..] == b
    ensures a != [] ==> s[i] == a[0]
  {
    assert s[i..i + |a|] == s[i..][..|a|];
    assert s[i + |a|..] == s[i..][|a|..];
    assert a != [] ==> s[i] == s[i..][0];
  }
}

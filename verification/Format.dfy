/** Bounded formatting: strlcpy of kernel/lib/libc/str.cc and vsnprintf of kernel/lib/libc/print.cc. */
module Format {
  import opened Arithmetic
  import opened Utf8
  import N = Numbers

  const UMAX: nat := 0xffff_ffff_ffff_ffff
  const PERCENT: Byte := 37

  predicate IsAscii(s: string) {
    forall i | 0 <= i < |s| :: 0 < s[i] as int < 128
  }

  /** The bytes of a string literal. */
  function Ascii(s: string): (b: seq<Byte>)
    requires IsAscii(s)
    ensures |b| == |s| && forall i | 0 <= i < |s| :: b[i] == s[i] as int
  {
    seq(|s|, i requires 0 <= i < |s| => s[i] as int)
  }

  /** The characters of a NUL-terminated string. */
  function CString(s: seq<Byte>): (c: seq<Byte>)
    requires Terminated(s, 0)
    ensures |c| == Terminator(s, 0) && forall k | 0 <= k < |c| :: c[k] != 0
  {
    s[..Terminator(s, 0)]
  }

  /** strlcpy to position `at`: as much of src as fits into n bytes with its terminator; nothing else is written. */
  method Strlcpy(dst: array<Byte>, at: nat, src: seq<Byte>, n: nat) returns (length: nat)
    requires Terminated(src, 0) && at + n <= dst.Length
    modifies dst
    ensures length == |CString(src)|
    ensures n == 0 ==> dst[..] == old(dst[..])
    ensures n > 0 ==> var m := if length < n then length else n - 1;
                      dst[..] == old(dst[..at]) + CString(src)[..m] + [0] + old(dst[at + m + 1..])
  {
    ghost var before, t := dst[..], Terminator(src, 0);
    var i, left := 0, n;
    if left > 0 {
      left := left - 1;
      while left > 0
        invariant left == n - 1 - i && i <= t
        invariant forall k | 0 <= k < dst.Length :: dst[k] == if at <= k < at + i then src[k - at] else before[k]
        decreases left
      {
        dst[at + i] := src[i];
        i := i + 1;
        if src[i - 1] == 0 {
          break;
        }
        left := left - 1;
      }
    }
    if left == 0 {
      if n > 0 {
        dst[at + i] := 0;
      }
      while src[i] != 0
        invariant i <= t
        decreases t - i
      {
        i := i + 1;
      }
      i := i + 1;
    }
    length := i - 1;
  }

  // ---------------------------------------------------------------- format strings

  /** What a directive asks for.  long: how many l; a directive with none of them has 32 bits. */
  datatype Kind = Unknown | Percent | Char | Str | Bool | Number(long: nat, unsigned: bool, hex: bool)

  /** parse_l, on what follows the first l. */
  function ParseLong(f: seq<Byte>): (k: Kind)
    requires Terminated(f, 0)
    ensures k.Number? && 1 <= k.long <= 2
  {
    if f[0] == 108 then Number(2, f[1] == 117, f[1] == 120)
    else Number(1, f[0] == 117, f[0] == 120)
  }

  /** parse: the directive at the start of f; %p is an unsigned 64-bit number in radix 16. */
  function Parse(f: seq<Byte>): Kind
    requires Terminated(f, 0)
  {
    match f[0]
    case 37 => Percent
    case 99 => Char
    case 115 => Str
    case 98 => Bool
    case 100 => Number(0, false, false)
    case 117 => Number(0, true, false)
    case 120 => Number(0, false, true)
    case 112 => Number(2, true, true)
    case 108 => ParseLong(f[1..])
    case _ => Unknown
  }

  /** How many characters of the directive at the start of f are consumed. */
  function Skip(f: seq<Byte>): (s: nat)
    requires Terminated(f, 0)
    ensures 1 <= s <= 3
  {
    var k := Parse(f);
    1 + (if k.Number? && f[0] == 108 && k.long == 2 then 1 else 0)
      + (if k.Number? && f[0] == 108 && (k.unsigned || k.hex) then 1 else 0)
  }

  lemma SkipInside(f: seq<Byte>)
    requires Terminated(f, 0) && f[0] != 0
    ensures Skip(f) < |f| && Terminated(f[Skip(f)..], 0)
  {
  }

  datatype Arg = Int(v: int) | Pointer(s: seq<Byte>)

  predicate Int32(v: int) {
    -0x8000_0000 <= v < 0x8000_0000
  }

  predicate Int64(v: int) {
    -0x8000_0000_0000_0000 <= v < 0x8000_0000_0000_0000
  }

  predicate TakesArg(k: Kind) {
    !k.Unknown? && !k.Percent?
  }

  /** The argument has the type that va_arg is told. */
  predicate Suits(k: Kind, a: Arg) {
    match k
    case Str => a.Pointer? && Terminated(a.s, 0)
    case Number(2, _, _) => a.Int? && Int64(a.v)
    case _ => a.Int? && Int32(a.v)
  }

  function Bits(k: Kind): nat
    requires k.Number?
  {
    if k.long == 2 then 64 else 32
  }

  lemma WordBounds()
    ensures Power(2, 31) == 0x8000_0000 && Power(2, 63) == 0x8000_0000_0000_0000
    ensures Power(2, 32) == 0x1_0000_0000 && Power(2, 64) == 0x1_0000_0000_0000_0000
  {
    PowerSum(2, 8, 8);
    PowerSum(2, 16, 16);
    PowerSum(2, 32, 32);
    PowerSum(2, 16, 8);
    PowerSum(2, 24, 7);
    PowerSum(2, 32, 31);
  }

  /** What one directive prints. */
  function Rendered(k: Kind, a: Arg): seq<Byte>
    requires TakesArg(k) && Suits(k, a)
  {
    match k
    case Char => [a.v % 256]
    case Str => CString(a.s)
    case Bool => [if a.v != 0 then 49 else 48]
    case Number(_, unsigned, hex) =>
      WordBounds();
      N.Text(a.v, Bits(k), if hex then 16 else 10, !(unsigned || hex))
  }

  /** The format ends at its terminator, not inside a directive, and each directive finds a suitable argument. */
  predicate WellFormed(f: seq<Byte>, args: seq<Arg>)
    requires Terminated(f, 0)
    decreases |f|
  {
    if f[0] == 0 then true
    else if f[0] != PERCENT then WellFormed(f[1..], args)
    else if f[1] == 0 then false
    else
      SkipInside(f[1..]);
      if TakesArg(Parse(f[1..])) then
        args != [] && Suits(Parse(f[1..]), args[0]) && WellFormed(f[1..][Skip(f[1..])..], args[1..])
      else WellFormed(f[1..][Skip(f[1..])..], args)
  }

  /** The whole text, however long. */
  function Expansion(f: seq<Byte>, args: seq<Arg>): seq<Byte>
    requires Terminated(f, 0) && WellFormed(f, args)
    decreases |f|
  {
    if f[0] == 0 then []
    else if f[0] != PERCENT then [f[0]] + Expansion(f[1..], args)
    else
      SkipInside(f[1..]);
      var k, rest := Parse(f[1..]), f[1..][Skip(f[1..])..];
      if TakesArg(k) then Rendered(k, args[0]) + Expansion(rest, args[1..])
      else (if k.Percent? then [PERCENT] else []) + Expansion(rest, args)
  }

  function Min(a: int, b: int): int {
    if a < b then a else b
  }

  // ---------------------------------------------------------------- printing

  /** Text was added at position len, as far as it fits; behind the character after it nothing changed. */
  ghost predicate Wrote(before: seq<Byte>, after: seq<Byte>, len: nat, n: nat, text: seq<Byte>)
    requires len < n <= |before|
  {
    var e := Min(len + |text|, n - 1);
    |after| == |before| && after[..e] == (before[..len] + text)[..e] && after[e + 1..] == before[e + 1..]
  }

  method PutByte(str: array<Byte>, len: nat, n: nat, c: Byte)
    requires len < n <= str.Length
    modifies str
    ensures Wrote(old(str[..]), str[..], len, n, [c])
  {
    str[len] := c;
  }

  method PutString(str: array<Byte>, len: nat, n: nat, s: seq<Byte>) returns (length: nat)
    requires len < n <= str.Length && Terminated(s, 0)
    modifies str
    ensures length == |CString(s)| && Wrote(old(str[..]), str[..], len, n, CString(s))
  {
    length := Strlcpy(str, len, s, n - len);
  }

  /** Prints one directive; the new length counts text that did not fit. */
  method PutDirective(str: array<Byte>, len: nat, n: nat, k: Kind, a: Arg) returns (length: nat)
    requires len < n <= str.Length && TakesArg(k) && Suits(k, a)
    modifies str
    ensures length == |Rendered(k, a)| && Wrote(old(str[..]), str[..], len, n, Rendered(k, a))
  {
    match k
    case Char =>
      PutByte(str, len, n, a.v % 256);
      length := 1;
    case Str =>
      length := PutString(str, len, n, a.s);
    case Bool =>
      PutByte(str, len, n, if a.v != 0 then 49 else 48);
      length := 1;
    case Number(_, unsigned, hex) =>
      WordBounds();
      var buf := NumberText(a.v, Bits(k), if hex then 16 else 10, !(unsigned || hex));
      length := PutString(str, len, n, buf);
  }

  /** The local buffer of vsnprintf holds every number it prints. */
  method NumberText(v: int, bits: nat, radix: nat, sign: bool) returns (s: seq<Byte>)
    requires (bits == 32 || bits == 64) && (radix == 10 || radix == 16) && N.InWord(v, bits)
    ensures Terminated(s, 0) && CString(s) == N.Text(v, bits, radix, sign)
  {
    N.FitsBuffer(v, bits, radix, sign);
    N.TextHasNoNul(v, bits, radix, sign);
    hide N.Text, N.InWord;
    var buf := new Byte[65];
    N.Itoa(v, bits, buf, radix, sign);
    s := buf[..|N.Text(v, bits, radix, sign)| + 1];
    TerminatorIs(s, |N.Text(v, bits, radix, sign)|);
  }

  lemma TerminatorIs(s: seq<Byte>, t: nat)
    requires t < |s| && s[t] == 0 && s[|s| - 1] == 0 && forall k | 0 <= k < t :: s[k] != 0
    ensures Terminator(s, 0) == t
  {
  }

  /** What vsnprintf leaves in memory: the first n - 1 characters of the text, or all of them if it is shorter, and a NUL. */
  function Bounded(before: seq<Byte>, n: nat, text: seq<Byte>): (after: seq<Byte>)
    requires 1 <= n <= |before|
    ensures |after| == |before|
  {
    var e := Min(|text|, n - 1);
    text[..e] + [0] + before[e + 1..]
  }

  /** Prints the character or directive at the start of f. */
  method PutNext(str: array<Byte>, len: nat, n: nat, f: seq<Byte>, args: seq<Arg>)
    returns (length: nat, f': seq<Byte>, args': seq<Arg>, ghost text: seq<Byte>)
    requires len < n <= str.Length && Terminated(f, 0) && WellFormed(f, args) && f[0] != 0
    modifies str
    ensures length == |text| && Wrote(old(str[..]), str[..], len, n, text)
    ensures |f'| < |f| && Terminated(f', 0) && WellFormed(f', args') && Expansion(f, args) == text + Expansion(f', args')
  {
    hide Parse, Skip, Rendered, Suits, Wrote;
    f', args' := f[1..], args;
    if f[0] == PERCENT {
      SkipInside(f');
      var k := Parse(f');
      f' := f'[Skip(f')..];
      if TakesArg(k) {
        text := Rendered(k, args[0]);
        length := PutDirective(str, len, n, k, args[0]);
        args' := args[1..];
      } else if k.Percent? {
        text := [PERCENT];
        PutByte(str, len, n, PERCENT);
        length := 1;
      } else {
        text := [];
        NothingWrote(str[..], len, n);
        length := 0;
      }
    } else {
      text := [f[0]];
      PutByte(str, len, n, f[0]);
      length := 1;
    }
  }

  /** vsnprintf: the text cut to n bytes with a terminator, and its length, or UMAX if it was cut. */
  method Vsnprintf(str: array<Byte>, n: nat, fmt: seq<Byte>, args: seq<Arg>) returns (r: nat)
    requires 1 <= n <= str.Length && n <= UMAX && Terminated(fmt, 0) && WellFormed(fmt, args)
    modifies str
    ensures var text := Expansion(fmt, args);
            var m := if |text| < n then |text| else n - 1;
            str[..m] == text[..m] && str[m] == 0 && str[m + 1..] == old(str[..])[m + 1..]
    ensures r == if |Expansion(fmt, args)| < n then |Expansion(fmt, args)| else UMAX
  {
    hide WellFormed, Expansion, Wrote, Bounded;
    ghost var before, whole := str[..], Expansion(fmt, args);
    var len: nat, f, rest := 0, fmt, args;
    while f[0] != 0
      invariant Terminated(f, 0) && WellFormed(f, rest) && len < n
      invariant str[..len] + Expansion(f, rest) == whole && str[len + 1..] == before[len + 1..]
      decreases |f|
    {
      ghost var now := str[..];
      var m, f', rest', text := PutNext(str, len, n, f, rest);
      WroteMore(before, now, str[..], len, n, text, Expansion(f', rest'), whole);
      len, f, rest := len + m, f', rest';
      if len >= n {
        ghost var after := str[..];
        str[n - 1] := 0;
        assert str[..] == after[n - 1 := 0];
        BoundedSays(before, n, whole);
        return UMAX;
      }
    }
    WroteAll(before, str[..], len, n, f, rest);
    ghost var after := str[..];
    str[len] := 0;
    assert str[..] == after[len := 0];
    BoundedSays(before, n, whole);
    return len;
  }

  lemma BoundedSays(before: seq<Byte>, n: nat, text: seq<Byte>)
    requires 1 <= n <= |before|
    ensures var s, m := Bounded(before, n, text), if |text| < n then |text| else n - 1;
            |s| == |before| && s[..m] == text[..m] && s[m] == 0 && s[m + 1..] == before[m + 1..]
  {
  }

  lemma NothingWrote(s: seq<Byte>, len: nat, n: nat)
    requires len < n <= |s|
    ensures Wrote(s, s, len, n, [])
  {
  }

  /** One more piece of the text is in place. */
  lemma WroteMore(before: seq<Byte>, now: seq<Byte>, after: seq<Byte>, len: nat, n: nat, text: seq<Byte>, rest: seq<Byte>, whole: seq<Byte>)
    requires len < n <= |before| && |now| == |before| && Wrote(now, after, len, n, text)
    requires now[..len] + (text + rest) == whole && now[len + 1..] == before[len + 1..]
    ensures |after| == |before|
    ensures len + |text| < n ==> after[..len + |text|] + rest == whole && after[len + |text| + 1..] == before[len + |text| + 1..]
    ensures len + |text| >= n ==> |whole| >= n && after[n - 1 := 0] == Bounded(before, n, whole)
  {
  }

  /** The text is complete. */
  lemma WroteAll(before: seq<Byte>, now: seq<Byte>, len: nat, n: nat, f: seq<Byte>, rest: seq<Arg>)
    requires Terminated(f, 0) && WellFormed(f, rest) && f[0] == 0
    requires len < n <= |before| && |now| == |before| && now[len + 1..] == before[len + 1..]
    ensures now[..len] + Expansion(f, rest) == now[..len] && now[len := 0] == Bounded(before, n, now[..len])
  {
  }

  // ---------------------------------------------------------------- the directives and their meaning

  /** The supported directives; HexPointer is %p. */
  datatype Directive = Plain(c: Byte) | Of(k: Kind) | HexPointer

  predicate Supported(d: Directive) {
    match d
    case Plain(c) => c != 0 && c != PERCENT
    case Of(k) => !k.Unknown? && (k.Number? ==> k.long <= 2 && !(k.unsigned && k.hex))
    case HexPointer => true
  }

  /** %ld and %lld */
  predicate SignedLong(d: Directive) {
    d.Of? && d.k.Number? && d.k.long > 0 && !d.k.unsigned && !d.k.hex
  }

  function Letter(k: Kind): Byte
    requires !k.Unknown?
  {
    match k
    case Percent => 37
    case Char => 99
    case Str => 115
    case Bool => 98
    case Number(_, unsigned, hex) => if unsigned then 117 else if hex then 120 else 100
  }

  function Spelling(d: Directive): (s: seq<Byte>)
    requires Supported(d)
    ensures |s| >= 1
  {
    match d
    case Plain(c) => [c]
    case Of(k) =>
      [PERCENT] + (if k.Number? && k.long == 2 then [108, 108] else if k.Number? && k.long == 1 then [108] else []) + [Letter(k)]
    case HexPointer => [PERCENT, 112]
  }

  function Spellings(ds: seq<Directive>): seq<Byte>
    requires forall d | d in ds :: Supported(d)
  {
    if ds == [] then [] else Spelling(ds[0]) + Spellings(ds[1..])
  }

  function KindOf(d: Directive): Kind
    requires !d.Plain?
  {
    if d.HexPointer? then Number(2, true, true) else d.k
  }

  predicate Takes(d: Directive) {
    !d.Plain? && TakesArg(KindOf(d))
  }

  predicate ArgsFit(ds: seq<Directive>, args: seq<Arg>) {
    ds == [] || (if Takes(ds[0]) then args != [] && Suits(KindOf(ds[0]), args[0]) && ArgsFit(ds[1..], args[1..])
                 else ArgsFit(ds[1..], args))
  }

  /** What the directives mean. */
  function Meaning(ds: seq<Directive>, args: seq<Arg>): seq<Byte>
    requires ArgsFit(ds, args)
  {
    if ds == [] then []
    else if Takes(ds[0]) then Rendered(KindOf(ds[0]), args[0]) + Meaning(ds[1..], args[1..])
    else [if ds[0].Plain? then ds[0].c else PERCENT] + Meaning(ds[1..], args)
  }

  function CountSignedLongs(ds: seq<Directive>): nat {
    if ds == [] then 0 else (if SignedLong(ds[0]) then 1 else 0) + CountSignedLongs(ds[1..])
  }

  /** The code prints what the directives mean, except that it stops one letter early in %ld and %lld
      and goes on to print that letter. */
  lemma {:induction false} PrintsMeaning(f: seq<Byte>, ds: seq<Directive>, args: seq<Arg>)
    requires (forall d | d in ds :: Supported(d)) && f == Spellings(ds) + [0] && ArgsFit(ds, args)
    ensures Terminated(f, 0) && WellFormed(f, args)
    ensures |Expansion(f, args)| == |Meaning(ds, args)| + CountSignedLongs(ds)
    ensures CountSignedLongs(ds) == 0 ==> Expansion(f, args) == Meaning(ds, args)
    decreases |ds|
  {
    hide Spelling, Expansion, WellFormed, Rendered, Suits, KindOf, TakesArg, SignedLong, Supported;
    if ds == [] {
      assert f == [0];
      EmptyExpansion(args);
    } else {
      assert ds[0] in ds;
      var rest := Spellings(ds[1..]) + [0];
      assert f == Spelling(ds[0]) + rest;
      if Takes(ds[0]) {
        PrintsMeaning(rest, ds[1..], args[1..]);
        ReadsDirective(f, ds[0], rest, args);
      } else {
        PrintsMeaning(rest, ds[1..], args);
        ReadsPlain(f, ds[0], rest, args);
      }
    }
  }

  lemma EmptyExpansion(args: seq<Arg>)
    ensures WellFormed([0], args) && Expansion([0], args) == []
  {
  }

  lemma ReadsPlain(f: seq<Byte>, d: Directive, rest: seq<Byte>, args: seq<Arg>)
    requires Supported(d) && !Takes(d) && f == Spelling(d) + rest && Terminated(rest, 0) && WellFormed(rest, args)
    ensures Terminated(f, 0) && WellFormed(f, args)
    ensures Expansion(f, args) == [if d.Plain? then d.c else PERCENT] + Expansion(rest, args) && !SignedLong(d)
  {
  }

  lemma ReadsDirective(f: seq<Byte>, d: Directive, rest: seq<Byte>, args: seq<Arg>)
    requires Supported(d) && Takes(d) && f == Spelling(d) + rest && Terminated(rest, 0)
    requires args != [] && Suits(KindOf(d), args[0]) && WellFormed(rest, args[1..])
    ensures Terminated(f, 0) && WellFormed(f, args)
    ensures Expansion(f, args) ==
            Rendered(KindOf(d), args[0]) + (if SignedLong(d) then [100] else []) + Expansion(rest, args[1..])
  {
    hide *;
    var g, left := Spelling(d)[1..] + rest, (if SignedLong(d) then [100] else []) + rest;
    SpelledWithPercent(d);
    assert f == [PERCENT] + g;
    ParsesDirective(g, d, rest);
    LeftOver(left, d, rest, args[1..]);
    ReadsAt(f, g, KindOf(d), left, args);
  }

  lemma SpelledWithPercent(d: Directive)
    requires Supported(d) && Takes(d)
    ensures !d.Plain? && Spelling(d) == [PERCENT] + Spelling(d)[1..] && TakesArg(KindOf(d))
  {
  }

  lemma ReadsAt(f: seq<Byte>, g: seq<Byte>, k: Kind, left: seq<Byte>, args: seq<Arg>)
    requires f == [PERCENT] + g && Terminated(g, 0) && g[0] != 0 && Parse(g) == k && Skip(g) < |g| && g[Skip(g)..] == left
    requires TakesArg(k) && args != [] && Suits(k, args[0]) && Terminated(left, 0) && WellFormed(left, args[1..])
    ensures Terminated(f, 0) && WellFormed(f, args)
    ensures Expansion(f, args) == Rendered(k, args[0]) + Expansion(left, args[1..])
  {
    hide Parse, Skip, Rendered, Suits, TakesArg;
    assert f[1..] == g && f[1] == g[0];
  }

  /** The letter left over after %ld and %lld is printed as it is. */
  lemma LeftOver(left: seq<Byte>, d: Directive, rest: seq<Byte>, args: seq<Arg>)
    requires Terminated(rest, 0) && WellFormed(rest, args) && left == (if SignedLong(d) then [100] else []) + rest
    ensures Terminated(left, 0) && WellFormed(left, args)
    ensures Expansion(left, args) == (if SignedLong(d) then [100] else []) + Expansion(rest, args)
  {
    if SignedLong(d) {
      assert left[1..] == rest;
    } else {
      assert left == rest;
    }
  }

  /** parse recognises each directive, and consumes all of it but the last letter of %ld and %lld. */
  lemma ParsesDirective(g: seq<Byte>, d: Directive, rest: seq<Byte>)
    requires Supported(d) && Takes(d) && g == Spelling(d)[1..] + rest && Terminated(rest, 0)
    ensures Terminated(g, 0) && g[0] != 0 && Parse(g) == KindOf(d) && Skip(g) < |g|
    ensures g[Skip(g)..] == (if SignedLong(d) then [100] else []) + rest
  {
    if d.Of? && d.k.Number? && d.k.long > 0 {
      ParsesLong(g, d.k, rest);
    } else {
      assert g[1..] == rest;
    }
  }

  lemma ParsesLong(g: seq<Byte>, k: Kind, rest: seq<Byte>)
    requires Supported(Of(k)) && k.Number? && k.long > 0 && g == Spelling(Of(k))[1..] + rest && Terminated(rest, 0)
    ensures Terminated(g, 0) && g[0] != 0 && Parse(g) == k && Skip(g) < |g|
    ensures g[Skip(g)..] == (if SignedLong(Of(k)) then [100] else []) + rest
  {
    var c := Letter(k);
    if k.long == 1 {
      assert g == [108, c] + rest;
      assert g[1..] == [c] + rest && g[2..] == rest;
    } else {
      assert g == [108, 108, c] + rest;
      assert g[1..] == [108, c] + rest && g[2..] == [c] + rest && g[3..] == rest;
    }
  }

  /** vsnprintf prints what the directives mean if and only if there is no %ld and no %lld among them. */
  lemma FaithfulWithoutSignedLongs(ds: seq<Directive>, args: seq<Arg>)
    requires (forall d | d in ds :: Supported(d)) && ArgsFit(ds, args)
    ensures var f := Spellings(ds) + [0];
            Terminated(f, 0) && WellFormed(f, args)
            && (Expansion(f, args) == Meaning(ds, args) <==> forall d | d in ds :: !SignedLong(d))
  {
    PrintsMeaning(Spellings(ds) + [0], ds, args);
    SignedLongsCounted(ds);
  }

  lemma {:induction false} SignedLongsCounted(ds: seq<Directive>)
    ensures CountSignedLongs(ds) == 0 <==> forall d | d in ds :: !SignedLong(d)
  {
    if ds != [] {
      SignedLongsCounted(ds[1..]);
      assert ds == [ds[0]] + ds[1..];
      assert ds[0] in ds;
    }
  }

  /** A single %ld with the argument 5 prints "5d". */
  lemma SignedLongPrintsLetter()
    ensures var f, args := [PERCENT, 108, 100, 0], [Int(5)];
            && Spellings([Of(Number(1, false, false))]) + [0] == f && ArgsFit([Of(Number(1, false, false))], args)
            && Meaning([Of(Number(1, false, false))], args) == [53]
            && Terminated(f, 0) && WellFormed(f, args) && Expansion(f, args) == [53, 100]
  {
    var f, args := [PERCENT, 108, 100, 0], [Int(5)];
    var d := Of(Number(1, false, false));
    assert [d][1..] == [] && args[1..] == [];
    assert Spelling(d) == [PERCENT, 108, 100];
    WordBounds();
    hide Power;
    assert N.Text(5, 32, 10, true) == [53];
    assert f[1..] == [108, 100, 0] && f[1..][1..] == [100, 0] && [100 as Byte, 0][1..] == [0];
    assert Parse(f[1..]) == Number(1, false, false) && Skip(f[1..]) == 1;
    hide Parse, Skip;
    assert WellFormed([100, 0], []) && Expansion([100, 0], []) == [100];
  }

  // ---------------------------------------------------------------- one directive at a time

  /** The format prints exactly this text. */
  ghost predicate Prints(format: string, args: seq<Arg>, text: seq<Byte>) {
    IsAscii(format) && WellFormed(Ascii(format) + [0], args) && Expansion(Ascii(format) + [0], args) == text
  }

  /** The string literal spells the directive. */
  ghost predicate Spells(format: string, d: Directive) {
    Supported(d) && Takes(d) && IsAscii(format) && Ascii(format) == Spelling(d)
  }

  lemma NumberSpellings()
    ensures Spells("%d", Of(Number(0, false, false))) && Spells("%ld", Of(Number(1, false, false)))
    ensures Spells("%lld", Of(Number(2, false, false))) && Spells("%u", Of(Number(0, true, false)))
    ensures Spells("%lu", Of(Number(1, true, false))) && Spells("%llu", Of(Number(2, true, false)))
    ensures Spells("%x", Of(Number(0, false, true))) && Spells("%lx", Of(Number(1, false, true)))
    ensures Spells("%llx", Of(Number(2, false, true))) && Spells("%p", HexPointer)
  {
  }

  lemma OtherSpellings()
    ensures Spells("%c", Of(Char)) && Spells("%s", Of(Str)) && Spells("%b", Of(Bool))
  {
  }

  lemma PrintsAlone(format: string, d: Directive, a: Arg)
    requires Spells(format, d) && Suits(KindOf(d), a)
    ensures TakesArg(KindOf(d)) && Prints(format, [a], Rendered(KindOf(d), a) + (if SignedLong(d) then [100] else []))
  {
    hide Supported, Suits, Rendered, KindOf, Spelling, SignedLong, Expansion, WellFormed, IsAscii, Ascii;
    EmptyExpansion([]);
    assert [a][1..] == [];
    ReadsDirective(Ascii(format) + [0], d, [0], [a]);
  }

  /** A directive prints the same text wherever it stands. */
  lemma PrintsInContext(format: string, d: Directive, a: Arg, text: seq<Byte>, rest: seq<Byte>, args: seq<Arg>)
    requires Spells(format, d) && !SignedLong(d) && Suits(KindOf(d), a) && Prints(format, [a], text)
    requires Terminated(rest, 0) && WellFormed(rest, args)
    ensures WellFormed(Ascii(format) + rest, [a] + args)
    ensures Expansion(Ascii(format) + rest, [a] + args) == text + Expansion(rest, args)
  {
    hide Supported, Suits, Rendered, KindOf, Spelling, SignedLong, Expansion, WellFormed, IsAscii, Ascii;
    PrintsAlone(format, d, a);
    assert ([a] + args)[1..] == args;
    ReadsDirective(Ascii(format) + rest, d, rest, [a] + args);
    assert text == Rendered(KindOf(d), a);
  }

  lemma NumberAlone(format: string, d: Directive, k: Kind, v: int)
    requires Spells(format, d) && KindOf(d) == k && k.Number? && k.long <= 2 && (if k.long == 2 then Int64(v) else Int32(v))
    ensures N.InWord(v, Bits(k))
    ensures Prints(format, [Int(v)],
                   N.Text(v, Bits(k), if k.hex then 16 else 10, !(k.unsigned || k.hex)) + (if SignedLong(d) then Ascii("d") else []))
  {
    WordBounds();
    assert Ascii("d") == [100];
    hide Spells, Prints, SignedLong, N.Text, Power, Ascii, IsAscii;
    PrintsAlone(format, d, Int(v));
  }

  /** %d, %ld and %lld print a decimal number that reads back as the argument; the last two print a letter behind it. */
  lemma SignedDirectives(v: int) returns (text: seq<Byte>)
    requires Int64(v)
    ensures N.Reading(text, 10) == v && |text| > 0
    ensures N.Numeral(if v < 0 then text[1..] else text, 10)
    ensures Prints("%lld", [Int(v)], text + Ascii("d"))
    ensures Int32(v) ==> Prints("%d", [Int(v)], text) && Prints("%ld", [Int(v)], text + Ascii("d"))
  {
    NumberSpellings();
    hide Spells, Prints, Power, Ascii, IsAscii, N.Reading, N.Numeral, N.Digits, N.InWord;
    NumberAlone("%lld", Of(Number(2, false, false)), Number(2, false, false), v);
    text := N.Text(v, 64, 10, true);
    N.TextReadsBack(v, 64, 10, true);
    N.TextIsNumeral(v, 64, 10, true);
    if Int32(v) {
      NumberAlone("%d", Of(Number(0, false, false)), Number(0, false, false), v);
      NumberAlone("%ld", Of(Number(1, false, false)), Number(1, false, false), v);
      assert N.Text(v, 32, 10, true) == text && text + [] == text;
    }
  }

  /** %u and %lu print the 32-bit word in decimal, %x and %lx in radix 16. */
  lemma WordDirectives(v: int) returns (decimal: seq<Byte>, hex: seq<Byte>)
    requires Int32(v)
    ensures N.Numeral(decimal, 10) && N.Numeral(hex, 16)
    ensures N.Value(decimal, 10) == N.Value(hex, 16) == v % 0x1_0000_0000
    ensures Prints("%u", [Int(v)], decimal) && Prints("%lu", [Int(v)], decimal)
    ensures Prints("%x", [Int(v)], hex) && Prints("%lx", [Int(v)], hex)
  {
    WordBounds();
    NumberSpellings();
    hide Spells, Prints, Power, Ascii, IsAscii, N.Value, N.Numeral, N.Text, N.InWord;
    NumberAlone("%u", Of(Number(0, true, false)), Number(0, true, false), v);
    NumberAlone("%lu", Of(Number(1, true, false)), Number(1, true, false), v);
    NumberAlone("%x", Of(Number(0, false, true)), Number(0, false, true), v);
    NumberAlone("%lx", Of(Number(1, false, true)), Number(1, false, true), v);
    decimal, hex := N.Text(v, 32, 10, false), N.Text(v, 32, 16, false);
    N.UnsignedReadsBack(v, 32, 10);
    N.UnsignedReadsBack(v, 32, 16);
    N.TextIsNumeral(v, 32, 10, false);
    N.TextIsNumeral(v, 32, 16, false);
    assert decimal + [] == decimal && hex + [] == hex;
  }

  /** %llu prints the 64-bit word in decimal, %llx and %p in radix 16. */
  lemma LongDirectives(v: int) returns (decimal: seq<Byte>, hex: seq<Byte>)
    requires Int64(v)
    ensures N.Numeral(decimal, 10) && N.Numeral(hex, 16)
    ensures N.Value(decimal, 10) == N.Value(hex, 16) == v % 0x1_0000_0000_0000_0000
    ensures Prints("%llu", [Int(v)], decimal) && Prints("%llx", [Int(v)], hex) && Prints("%p", [Int(v)], hex)
  {
    WordBounds();
    NumberSpellings();
    hide Spells, Prints, Power, Ascii, IsAscii, N.Value, N.Numeral, N.Text, N.InWord;
    NumberAlone("%llu", Of(Number(2, true, false)), Number(2, true, false), v);
    NumberAlone("%llx", Of(Number(2, false, true)), Number(2, false, true), v);
    NumberAlone("%p", HexPointer, Number(2, true, true), v);
    decimal, hex := N.Text(v, 64, 10, false), N.Text(v, 64, 16, false);
    N.UnsignedReadsBack(v, 64, 10);
    N.UnsignedReadsBack(v, 64, 16);
    N.TextIsNumeral(v, 64, 10, false);
    N.TextIsNumeral(v, 64, 16, false);
    assert decimal + [] == decimal && hex + [] == hex;
  }

  /** %c prints the byte, %b whether the argument is not zero, %s the characters up to the terminator, which is at t. */
  lemma CharDirectives(v: int, s: seq<Byte>, t: nat)
    requires Int32(v) && Terminated(s, 0) && t < |s| && s[t] == 0 && forall k | 0 <= k < t :: s[k] != 0
    ensures Prints("%c", [Int(v)], [v % 256])
    ensures Prints("%b", [Int(v)], if v != 0 then Ascii("1") else Ascii("0"))
    ensures Prints("%s", [Pointer(s)], s[..t])
  {
    OtherSpellings();
    TerminatorIs(s, t);
    assert Ascii("1") == [49] && Ascii("0") == [48];
    hide Spells, Prints, Ascii, IsAscii;
    PrintsAlone("%c", Of(Char), Int(v));
    PrintsAlone("%b", Of(Bool), Int(v));
    PrintsAlone("%s", Of(Str), Pointer(s));
    assert Rendered(Str, Pointer(s)) == s[..t];
    NothingBehind(s[..t]);
    NothingBehind(Rendered(Char, Int(v)));
    NothingBehind(Rendered(Bool, Int(v)));
  }

  lemma NothingBehind(text: seq<Byte>)
    ensures text + [] == text
  {
  }

  /** Characters other than % are printed as they are, %% is a percent sign, and an unknown directive is dropped.
      None of them takes an argument. */
  lemma PlainCharacters(c: Byte, rest: seq<Byte>, args: seq<Arg>)
    requires c != 0 && Terminated(rest, 0) && WellFormed(rest, args)
    ensures var f := [c] + rest; c != PERCENT ==> Terminated(f, 0) && WellFormed(f, args) && Expansion(f, args) == [c] + Expansion(rest, args)
    ensures var f := Ascii("%%") + rest; Terminated(f, 0) && WellFormed(f, args) && Expansion(f, args) == Ascii("%") + Expansion(rest, args)
    ensures var f := Ascii("%") + [c] + rest;
            c !in Ascii("%csbduxpl") ==> Terminated(f, 0) && WellFormed(f, args) && Expansion(f, args) == Expansion(rest, args)
  {
    assert Ascii("%") == [PERCENT] && Ascii("%%") == [PERCENT, PERCENT];
    var letters := Ascii("%csbduxpl");
    assert letters == [37, 99, 115, 98, 100, 117, 120, 112, 108];
    assert ([c] + rest)[1..] == rest;
    assert ([PERCENT] + [c] + rest)[1..] == [c] + rest;
    assert ([PERCENT, PERCENT] + rest)[1..] == [PERCENT] + rest;
    assert ([PERCENT] + rest)[1..] == rest;
    assert c !in letters ==> Parse([c] + rest) == Unknown && Skip([c] + rest) == 1;
    assert Parse([PERCENT] + rest) == Percent && Skip([PERCENT] + rest) == 1;
    hide Parse, Skip, Ascii;
  }
}

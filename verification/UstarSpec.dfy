/**
 ustar.c: archive headers of 512 bytes in the ustar interchange format of the POSIX pax
 utility.  This module says what the fields mean; Ustar.dfy fills and reads them.
 */
module UstarSpec {
  import opened Bytes
  import opened Options

  const HEADER_SIZE: nat := 512
  const REGULAR: byte := 48
  const DIRECTORY: byte := 53
  const ZERO: byte := 48
  const SPACE: byte := 32
  const DOT: byte := 46
  const SLASH: byte := 47
  const ULONG_MAX: nat := 0xFFFF_FFFF
  const INT_MAX: nat := 0x7FFF_FFFF

  const NAME_AT: nat := 0
  const NAME_LEN: nat := 100
  const MODE_AT: nat := 100
  const UID_AT: nat := 108
  const GID_AT: nat := 116
  const SIZE_AT: nat := 124
  const SIZE_LEN: nat := 12
  const MTIME_AT: nat := 136
  const CHKSUM_AT: nat := 148
  const CHKSUM_LEN: nat := 8
  const TYPE_AT: nat := 156
  const MAGIC_AT: nat := 257
  const VERSION_AT: nat := 263
  const UNAME_AT: nat := 265
  const GNAME_AT: nat := 297
  const PREFIX_AT: nat := 345

  /** "ustar" with its null byte. */
  const MAGIC: seq<byte> := [117, 115, 116, 97, 114, 0]

  const ROOT: seq<byte> := [114, 111, 111, 116, 0]

  // ---------- Octal fields ----------

  function Pow8(k: nat): (r: nat)
    ensures r >= 1
  {
    if k == 0 then 1 else 8 * Pow8(k - 1)
  }

  predicate OctalDigit(c: byte) { ZERO <= c < ZERO + 8 }

  /** The low `k` octal digits of a number. */
  function Octal(v: nat, k: nat): (r: seq<byte>)
    ensures |r| == k && forall i :: 0 <= i < k ==> OctalDigit(r[i])
  {
    if k == 0 then [] else Octal(v / 8, k - 1) + [ZERO + v % 8]
  }

  /** The number that octal digits stand for. */
  function Value(digits: seq<byte>): (v: int) {
    if digits == [] then 0 else Value(digits[..|digits| - 1]) * 8 + (digits[|digits| - 1] - ZERO)
  }

  /** Printing and reading a number in octal are inverse. */
  lemma {:induction false} OctalValue(v: nat, k: nat)
    requires v < Pow8(k)
    ensures Value(Octal(v, k)) == v
  {
    if k > 0 {
      OctalValue(v / 8, k - 1);
      assert Octal(v, k)[..k - 1] == Octal(v / 8, k - 1);
    }
  }

  lemma {:induction false} ValueIsNat(digits: seq<byte>)
    requires forall i :: 0 <= i < |digits| ==> OctalDigit(digits[i])
    ensures Value(digits) >= 0
  {
    if digits != [] {
      ValueIsNat(digits[..|digits| - 1]);
    }
  }

  /** parse_octal_field, from position `ofs` on with `value` read so far. */
  function ParseFrom(s: seq<byte>, ofs: nat, value: nat): Option<nat>
    requires ofs <= |s|
    decreases |s| - ofs
  {
    if ofs == |s| then None
    else if OctalDigit(s[ofs]) then
      if value > ULONG_MAX / 8 then None else ParseFrom(s, ofs + 1, s[ofs] - ZERO + value * 8)
    else if (s[ofs] == SPACE || s[ofs] == 0) && ofs > 0 then Some(value)
    else None
  }

  function ParseOctal(s: seq<byte>): Option<nat> { ParseFrom(s, 0, 0) }

  /** Reading through digits, as far as no overflow stops it. */
  lemma {:induction false} ParseDigits(s: seq<byte>, ofs: nat, n: nat)
    requires ofs <= n < |s| && (forall i :: 0 <= i < n ==> OctalDigit(s[i])) && (s[n] == SPACE || s[n] == 0) && n > 0
    requires 0 <= Value(s[..ofs]) <= ULONG_MAX
    ensures 0 <= Value(s[..n])
    ensures ParseFrom(s, ofs, Value(s[..ofs])) == if Value(s[..n]) <= ULONG_MAX then Some(Value(s[..n])) else None
    decreases n - ofs
  {
    ValueIsNat(s[..n]);
    if ofs < n {
      assert s[..ofs + 1][..ofs] == s[..ofs];
      if Value(s[..ofs]) > ULONG_MAX / 8 {
        LongerIsMore(s, ofs + 1, n);
      } else {
        ParseDigits(s, ofs + 1, n);
      }
    }
  }

  lemma {:induction false} LongerIsMore(s: seq<byte>, k: nat, n: nat)
    requires k <= n <= |s| && forall i :: 0 <= i < n ==> OctalDigit(s[i])
    ensures Value(s[..k]) <= Value(s[..n])
  {
    if k < n {
      LongerIsMore(s, k, n - 1);
      assert s[..n][..n - 1] == s[..n - 1];
      ValueIsNat(s[..n - 1]);
    }
  }

  /** A field of digits and a terminator reads as its value, unless that does not fit an unsigned long. */
  lemma ParseOctalMeaning(s: seq<byte>, n: nat)
    requires 0 < n < |s| && (forall i :: 0 <= i < n ==> OctalDigit(s[i])) && (s[n] == SPACE || s[n] == 0)
    ensures 0 <= Value(s[..n])
    ensures ParseOctal(s) == if Value(s[..n]) <= ULONG_MAX then Some(Value(s[..n])) else None
  {
    assert s[..0] == [];
    ParseDigits(s, 0, n);
  }

  /** A printed field reads back. */
  lemma ParsePrinted(v: nat, k: nat)
    requires v < Pow8(k) && v <= ULONG_MAX && k > 0
    ensures ParseOctal(Octal(v, k) + [0]) == Some(v)
  {
    var s := Octal(v, k) + [0];
    assert s[..k] == Octal(v, k);
    OctalValue(v, k);
    ParseOctalMeaning(s, k);
  }

  /** How many octal digits a field starts with. */
  function Run(s: seq<byte>): (n: nat)
    ensures n <= |s| && (forall i :: 0 <= i < n ==> OctalDigit(s[i])) && (n < |s| ==> !OctalDigit(s[n]))
  {
    if s == [] || !OctalDigit(s[0]) then 0 else 1 + Run(s[1..])
  }

  /** A field is read exactly if it is digits, at least one, and a space or null behind them, and its value fits. */
  lemma ParseOctalExactly(s: seq<byte>)
    ensures var n := Run(s);
      ParseOctal(s) ==
      if 0 < n < |s| && (s[n] == SPACE || s[n] == 0) && 0 <= Value(s[..n]) <= ULONG_MAX then Some(Value(s[..n])) else None
  {
    var n := Run(s);
    if 0 < n < |s| && (s[n] == SPACE || s[n] == 0) {
      ParseOctalMeaning(s, n);
    } else {
      ParseStops(s, 0, 0);
    }
  }

  lemma {:induction false} ParseStops(s: seq<byte>, ofs: nat, value: nat)
    requires ofs <= Run(s) && !(0 < Run(s) < |s| && (s[Run(s)] == SPACE || s[Run(s)] == 0))
    ensures ParseFrom(s, ofs, value) == None
    decreases |s| - ofs
  {
    if ofs < Run(s) && value <= ULONG_MAX / 8 {
      ParseStops(s, ofs + 1, s[ofs] - ZERO + value * 8);
    }
  }

  // ---------- Names ----------

  predicate CString(s: seq<byte>) { forall i :: 0 <= i < |s| ==> s[i] != 0 }

  /** It starts with "/", "./" or "../". */
  predicate Antisocial(s: seq<byte>) {
    || (|s| >= 1 && s[0] == SLASH)
    || (|s| >= 2 && s[0] == DOT && s[1] == SLASH)
    || (|s| >= 3 && s[0] == DOT && s[1] == DOT && s[2] == SLASH)
  }

  /** A name that cannot leave the directory it is extracted to by its prefix. */
  predicate Social(s: seq<byte>) {
    s != [] && s != [DOT, DOT] && !Antisocial(s)
  }

  /** What is after the first slash. */
  function AfterSlash(s: seq<byte>): (r: seq<byte>)
    requires Antisocial(s)
    ensures |r| < |s| && r == s[|s| - |r|..] && s[|s| - |r| - 1] == SLASH
    ensures forall i :: 0 <= i < |s| - |r| - 1 ==> s[i] != SLASH
  {
    if s[0] == SLASH then s[1..] else if s[1] == SLASH then s[2..] else s[3..]
  }

  /** strip_antisocial_prefixes. */
  function Strip(s: seq<byte>): (r: seq<byte>)
    decreases |s|
  {
    if Antisocial(s) then Strip(AfterSlash(s))
    else if s == [] || s == [DOT, DOT] then [DOT] else s
  }

  lemma {:induction false} StripSocial(s: seq<byte>)
    ensures Social(Strip(s))
    decreases |s|
  {
    hide Antisocial;
    if Antisocial(s) {
      StripSocial(AfterSlash(s));
    } else {
      DotIsSocial();
    }
  }

  lemma DotIsSocial()
    ensures Social([DOT])
  {
  }

  lemma {:induction false} StripSuffix(s: seq<byte>)
    ensures Strip(s) == [DOT] || (|Strip(s)| <= |s| && Strip(s) == s[|s| - |Strip(s)|..])
    decreases |s|
  {
    hide Antisocial;
    if Antisocial(s) {
      StripSuffix(AfterSlash(s));
    }
  }

  /** The result is social, a suffix or ".", and only what is not social is changed. */
  lemma StripWorks(s: seq<byte>)
    ensures Social(Strip(s))
    ensures Strip(s) == [DOT] || (|Strip(s)| <= |s| && Strip(s) == s[|s| - |Strip(s)|..])
    ensures Strip(s) == s <==> Social(s)
    ensures CString(s) ==> CString(Strip(s))
  {
    hide Antisocial;
    StripSocial(s);
    StripSuffix(s);
  }

  /** One antisocial prefix before a social name is all that goes; nothing behind one, or "..", becomes ".". */
  lemma StripOnePrefix(t: seq<byte>)
    ensures Strip([SLASH] + t) == Strip(t) && Strip([DOT, SLASH] + t) == Strip(t) && Strip([DOT, DOT, SLASH] + t) == Strip(t)
    ensures Social(t) ==> Strip(t) == t
    ensures Strip([]) == [DOT] && Strip([DOT, DOT]) == [DOT]
  {
    assert AfterSlash([SLASH] + t) == t;
    assert AfterSlash([DOT, SLASH] + t) == t;
    assert AfterSlash([DOT, DOT, SLASH] + t) == t;
  }

  /** Stripping again changes nothing. */
  lemma StripTwice(s: seq<byte>)
    ensures Strip(Strip(s)) == Strip(s)
  {
    StripWorks(s);
    StripWorks(Strip(s));
  }

  // ---------- The checksum ----------

  /** The sum of the first `n` bytes, with the checksum field read as spaces. */
  function Sum(h: seq<byte>, n: nat): (r: nat)
    requires n <= |h|
    ensures r <= 255 * n
  {
    if n == 0 then 0
    else Sum(h, n - 1) + if CHKSUM_AT <= n - 1 < CHKSUM_AT + CHKSUM_LEN then SPACE else h[n - 1]
  }

  /** Any other byte does: changing one changes the checksum by as much. */
  lemma {:induction false} SumOfOneChange(h: seq<byte>, i: nat, b: byte, n: nat)
    requires i < |h| && n <= |h| && !(148 <= i < 156)
    ensures Sum(h[i := b], n) == Sum(h, n) + if i < n then b - h[i] else 0
  {
    if n > 0 {
      SumOfOneChange(h, i, b, n - 1);
    }
  }

  /** What the checksum field holds does not matter to the checksum. */
  lemma {:induction false} SumStable(h: seq<byte>, h': seq<byte>, n: nat)
    requires n <= |h| == |h'|
    requires forall i :: 0 <= i < |h| && !(CHKSUM_AT <= i < CHKSUM_AT + CHKSUM_LEN) ==> h'[i] == h[i]
    ensures Sum(h', n) == Sum(h, n)
  {
    if n > 0 {
      SumStable(h, h', n - 1);
    }
  }
}

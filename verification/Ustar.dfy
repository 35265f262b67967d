/** ustar.c: composing and parsing a header in place. */
module Ustar {
  import opened Options
  import opened Bytes
  import opened UstarSpec

  datatype Error =
    | NotUstar | BadVersion | BadChksumField | ChksumMismatch | NameTooLong | UnknownType | BadSizeField | TooLarge

  datatype Parsed = EndOfArchive | Entry(name: seq<byte>, kind: byte, size: nat) | Bad(error: Error)

  /** A C string at the start of a field. */
  function UpToNul(s: seq<byte>): (r: seq<byte>)
    ensures |r| <= |s| && r == s[..|r|] && CString(r) && (|r| < |s| ==> s[|r|] == 0)
  {
    if s == [] || s[0] == 0 then [] else [s[0]] + UpToNul(s[1..])
  }

  /** What ustar_parse_header makes of a header. */
  function Parse(h: seq<byte>): (r: Parsed)
    requires |h| == HEADER_SIZE
  {
    if forall i :: 0 <= i < HEADER_SIZE ==> h[i] == 0 then EndOfArchive
    else if h[MAGIC_AT..MAGIC_AT + 6] != MAGIC then Bad(NotUstar)
    else if h[VERSION_AT] != ZERO || h[VERSION_AT + 1] != ZERO then Bad(BadVersion)
    else
      var chksum := ParseOctal(h[CHKSUM_AT..CHKSUM_AT + CHKSUM_LEN]);
      if chksum.None? then Bad(BadChksumField)
      else if chksum.value != Sum(h, HEADER_SIZE) then Bad(ChksumMismatch)
      else if h[NAME_LEN - 1] != 0 || h[PREFIX_AT] != 0 then Bad(NameTooLong)
      else if h[TYPE_AT] != REGULAR && h[TYPE_AT] != DIRECTORY then Bad(UnknownType)
      else if h[TYPE_AT] == REGULAR then
        var size := ParseOctal(h[SIZE_AT..SIZE_AT + SIZE_LEN]);
        if size.None? then Bad(BadSizeField)
        else if size.value > INT_MAX then Bad(TooLarge)
        else Entry(Strip(UpToNul(h[..NAME_LEN])), REGULAR, size.value)
      else Entry(Strip(UpToNul(h[..NAME_LEN])), DIRECTORY, 0)
  }

  /** Every name that comes out of a header is social, whoever made the header. */
  lemma ParsedIsSocial(h: seq<byte>)
    requires |h| == HEADER_SIZE && Parse(h).Entry?
    ensures Social(Parse(h).name) && Parse(h).size <= INT_MAX && Parse(h).kind in {REGULAR, DIRECTORY}
  {
    hide Sum, Strip, ParseOctal, Social, UpToNul;
    StripWorks(UpToNul(h[..NAME_LEN]));
  }

  // ---------- What a composed header holds ----------

  ghost predicate Has(h: seq<byte>, at: nat, bytes: seq<byte>) {
    at + |bytes| <= |h| && h[at..at + |bytes|] == bytes
  }

  /** A size as the unsigned conversion of printf sees it. */
  function Unsigned(size: int): (r: nat)
    requires -0x8000_0000 <= size <= INT_MAX
    ensures r <= ULONG_MAX && (size >= 0 <==> r <= INT_MAX) && (size >= 0 ==> r == size)
  {
    if size >= 0 then size else size + 0x1_0000_0000
  }

  /** The fields that are filled in before the checksum. */
  ghost predicate Filled(h: seq<byte>, name: seq<byte>, kind: byte, size: int)
    requires -0x8000_0000 <= size <= INT_MAX
  {
    && |h| == HEADER_SIZE
    && Has(h, NAME_AT, name + [0]) && Has(h, NAME_LEN - 1, [0])
    && Has(h, MODE_AT, Octal(if kind == REGULAR then 420 else 493, 7) + [0])
    && Has(h, UID_AT, Octal(0, 7) + [0]) && Has(h, GID_AT, Octal(0, 7) + [0])
    && Has(h, SIZE_AT, Octal(Unsigned(size), 11) + [0])
    && Has(h, MTIME_AT, Octal(1136102400, 11) + [0])
    && Has(h, TYPE_AT, [kind]) && Has(h, MAGIC_AT, MAGIC) && Has(h, VERSION_AT, [ZERO, ZERO])
    && Has(h, UNAME_AT, ROOT) && Has(h, GNAME_AT, ROOT) && Has(h, PREFIX_AT, [0])
  }

  ghost predicate Composed(h: seq<byte>, name: seq<byte>, kind: byte, size: int)
    requires -0x8000_0000 <= size <= INT_MAX
  {
    Filled(h, name, kind, size) && Has(h, CHKSUM_AT, Octal(Sum(h, HEADER_SIZE), 7) + [0])
  }

  /** What a header should parse to. */
  function Archived(name: seq<byte>, kind: byte, size: int): Parsed {
    if kind == DIRECTORY then Entry(name, kind, 0)
    else if size >= 0 then Entry(name, kind, size) else Bad(TooLarge)
  }

  lemma OctalsFit()
    ensures Pow8(7) == 2097152 && Pow8(11) == 8589934592
  {
  }

  /**
   Parsing a composed header gives back the name, the type and the size, with size 0 for a
   directory.  The one exception is a regular file with a negative size, whose unsigned
   image is refused as too large.
   */
  lemma RoundTrip(h: seq<byte>, name: seq<byte>, kind: byte, size: int)
    requires -0x8000_0000 <= size <= INT_MAX && (kind == REGULAR || kind == DIRECTORY)
    requires CString(name) && |name| <= 99 && Social(name)
    requires Composed(h, name, kind, size)
    ensures Parse(h) == Archived(name, kind, size)
  {
    hide Sum, Strip, ParseOctal, Octal, Social;
    OctalsFit();
    ParsePrinted(Sum(h, HEADER_SIZE), 7);
    ParsePrinted(Unsigned(size), 11);
    NameReadsBack(h, name);
    StripWorks(name);
    assert h[MAGIC_AT] == MAGIC[0] by {
      assert h[MAGIC_AT] == h[MAGIC_AT..MAGIC_AT + 6][0];
    }
    assert h[VERSION_AT..VERSION_AT + 2][0] == h[VERSION_AT] && h[VERSION_AT..VERSION_AT + 2][1] == h[VERSION_AT + 1];
    assert h[TYPE_AT..TYPE_AT + 1][0] == h[TYPE_AT];
    assert h[PREFIX_AT..PREFIX_AT + 1][0] == h[PREFIX_AT];
    assert h[NAME_LEN - 1..NAME_LEN][0] == h[NAME_LEN - 1];
  }

  lemma NameReadsBack(h: seq<byte>, name: seq<byte>)
    requires |h| == HEADER_SIZE && CString(name) && |name| <= 99 && Has(h, NAME_AT, name + [0])
    ensures UpToNul(h[..NAME_LEN]) == name
  {
    var s := h[..NAME_LEN];
    assert s[..|name|] == (h[0..|name| + 1])[..|name|] == name;
    assert s[|name|] == (h[0..|name| + 1])[|name|] == 0;
    assert |UpToNul(s)| == |name|;
  }

  /** Where the fields of a composed header are and what they hold, in bytes. */
  lemma HeaderLayout(h: seq<byte>, name: seq<byte>, kind: byte, size: int)
    requires -0x8000_0000 <= size <= INT_MAX && |name| <= 99 && Composed(h, name, kind, size)
    ensures |h| == 512 && h[..|name|] == name && h[|name|] == 0
    ensures h[100..108] == (if kind == 48 then [48, 48, 48, 48, 54, 52, 52, 0] else [48, 48, 48, 48, 55, 53, 53, 0])
    ensures h[108..116] == h[116..124] == [48, 48, 48, 48, 48, 48, 48, 0]
    ensures (forall i :: 124 <= i < 135 ==> OctalDigit(h[i])) && Value(h[124..135]) == Unsigned(size) && h[135] == 0
    ensures Value(h[136..147]) == 1136102400 && h[147] == 0
    ensures (forall i :: 148 <= i < 155 ==> OctalDigit(h[i])) && Value(h[148..155]) == Sum(h, 512) && h[155] == 0
    ensures h[156] == kind && h[257..263] == [117, 115, 116, 97, 114, 0] && h[263..265] == [48, 48]
    ensures h[265..270] == h[297..302] == [114, 111, 111, 116, 0] && h[345] == 0
  {
    hide Sum, Octal, Value;
    OctalsFit();
    OctalValue(Unsigned(size), 11);
    OctalValue(1136102400, 11);
    OctalValue(Sum(h, HEADER_SIZE), 7);
    Modes();
    NameField(h, name);
    NumberField(h, 124, Unsigned(size), 11);
    NumberField(h, 136, 1136102400, 11);
    NumberField(h, 148, Sum(h, HEADER_SIZE), 7);
    assert h[156..157][0] == h[156];
    assert h[345..346][0] == h[345];
  }

  lemma Modes()
    ensures Octal(420, 7) + [0] == [48, 48, 48, 48, 54, 52, 52, 0]
    ensures Octal(493, 7) + [0] == [48, 48, 48, 48, 55, 53, 53, 0]
    ensures Octal(0, 7) + [0] == [48, 48, 48, 48, 48, 48, 48, 0]
  {
  }

  lemma NameField(h: seq<byte>, name: seq<byte>)
    requires Has(h, 0, name + [0])
    ensures h[..|name|] == name && h[|name|] == 0
  {
    assert h[0..|name| + 1][..|name|] == h[..|name|];
    assert h[0..|name| + 1][|name|] == h[|name|];
  }

  lemma NumberField(h: seq<byte>, at: nat, v: nat, k: nat)
    requires Has(h, at, Octal(v, k) + [0])
    ensures h[at..at + k] == Octal(v, k) && h[at + k] == 0 && forall i :: at <= i < at + k ==> OctalDigit(h[i])
  {
    var f := h[at..at + k + 1];
    assert f == Octal(v, k) + [0];
    assert f[..k] == h[at..at + k] && f[k] == h[at + k];
    forall i | at <= i < at + k ensures OctalDigit(h[i]) {
      assert h[i] == f[i - at];
    }
  }

  /** Which headers are taken for an entry, and which end the archive, by their bytes. */
  lemma AcceptedExactly(h: seq<byte>)
    requires |h| == 512
    ensures Parse(h).EndOfArchive? <==> h == seq(512, _ => 0)
    ensures Parse(h).Entry? <==>
            && h[257..265] == [117, 115, 116, 97, 114, 0, 48, 48]
            && ParseOctal(h[148..156]) == Some(Sum(h, 512)) && h[99] == 0 && h[345] == 0
            && (h[156] == 53 || (h[156] == 48 && ParseOctal(h[124..136]).Some? && ParseOctal(h[124..136]).value < 0x8000_0000))
    ensures Parse(h).Entry? ==> Parse(h).kind == h[156] && Parse(h).size == if h[156] == 48 then ParseOctal(h[124..136]).value else 0
  {
    hide Sum, Strip, ParseOctal;
    assert h[257..265] == h[257..263] + [h[263], h[264]];
    assert h[257..263][0] == h[257];
    assert [117, 115, 116, 97, 114, 0, 48, 48] == MAGIC + [48, 48];
    if h[257..263] + [h[263], h[264]] == MAGIC + [48, 48] {
      assert (h[257..263] + [h[263], h[264]])[..6] == h[257..263] && (MAGIC + [48, 48])[..6] == MAGIC;
      assert (h[257..263] + [h[263], h[264]])[6] == h[263] && (h[257..263] + [h[263], h[264]])[7] == h[264];
    }
  }

  /** One changed byte outside the checksum field is always noticed. */
  lemma OneChangeIsNoticed(h: seq<byte>, i: nat, b: byte)
    requires |h| == HEADER_SIZE && Parse(h).Entry? && i < 512 && !(148 <= i < 156) && h[i] != b
    ensures Parse(h[i := b]).Bad?
  {
    hide Strip, ParseOctal;
    var h' := h[i := b];
    SumOfOneChange(h, i, b, HEADER_SIZE);
    assert h'[CHKSUM_AT..CHKSUM_AT + CHKSUM_LEN] == h[CHKSUM_AT..CHKSUM_AT + CHKSUM_LEN];
    assert h[MAGIC_AT..MAGIC_AT + 6][0] == h[MAGIC_AT] && h[MAGIC_AT..MAGIC_AT + 6][1] == h[MAGIC_AT + 1];
    assert h'[MAGIC_AT] != 0 || h'[MAGIC_AT + 1] != 0;
  }

  // ---------- Composing ----------

  /** Storing bytes at an offset keeps every other field. */
  method Store(header: array<byte>, at: nat, bytes: seq<byte>)
    requires at + |bytes| <= header.Length
    modifies header
    ensures Has(header[..], at, bytes)
    ensures forall o: nat, b: seq<byte> ::
      Has(old(header[..]), o, b) && (o + |b| <= at || at + |bytes| <= o) ==> Has(header[..], o, b)
    ensures forall i :: 0 <= i < header.Length && !(at <= i < at + |bytes|) ==> header[i] == old(header[i])
  {
    var i := 0;
    while i < |bytes|
      invariant 0 <= i <= |bytes|
      invariant forall k :: 0 <= k < i ==> header[at + k] == bytes[k]
      invariant forall k :: 0 <= k < header.Length && !(at <= k < at + i) ==> header[k] == old(header[k])
    {
      header[at + i] := bytes[i];
      i := i + 1;
    }
    assert header[..][at..at + |bytes|] == bytes;
    ghost var h, h' := old(header[..]), header[..];
    forall o: nat, b: seq<byte> | Has(h, o, b) && (o + |b| <= at || at + |bytes| <= o) ensures Has(h', o, b) {
      assert h'[o..o + |b|] == h[o..o + |b|];
    }
  }

  /** The printf conversion `%0<width>o`: digits from the right, then zeros up to the width. */
  method FormatOctal(value: nat, width: nat) returns (s: seq<byte>)
    requires value < Pow8(width) && width > 0
    ensures s == Octal(value, width)
  {
    var v: nat := value;
    s := [];
    assert Octal(value, width) == Octal(v, width) + s;
    while v > 0
      invariant |s| <= width && v < Pow8(width - |s|)
      invariant Octal(value, width) == Octal(v, width - |s|) + s
    {
      ghost var k := width - |s|;
      assert Octal(v, k) == Octal(v / 8, k - 1) + [ZERO + v % 8];
      assert Octal(v, k) + s == Octal(v / 8, k - 1) + ([ZERO + v % 8] + s);
      s := [ZERO + v % 8] + s;
      v := v / 8;
    }
    if |s| < 1 {
      assert Octal(0, width) + s == Octal(0, width - 1) + [ZERO];
      s := [ZERO];
    }
    s := Pad(s, width);
  }

  method Pad(digits: seq<byte>, width: nat) returns (s: seq<byte>)
    requires |digits| <= width
    ensures s == Octal(0, width - |digits|) + digits
  {
    s := digits;
    while |s| < width
      invariant |s| <= width
      invariant Octal(0, width - |digits|) + digits == Octal(0, width - |s|) + s
    {
      ghost var k := width - |s|;
      assert Octal(0, k) + s == Octal(0, k - 1) + ([ZERO] + s);
      s := [ZERO] + s;
    }
  }

  /** calculate_chksum. */
  method CalculateChksum(h: seq<byte>) returns (chksum: nat)
    requires |h| == HEADER_SIZE
    ensures chksum == Sum(h, HEADER_SIZE)
  {
    chksum := 0;
    for i := 0 to HEADER_SIZE
      invariant chksum == Sum(h, i)
    {
      var inField := CHKSUM_AT <= i < CHKSUM_AT + CHKSUM_LEN;
      chksum := chksum + if inField then SPACE else h[i];
    }
  }

  /** strip_antisocial_prefixes. */
  method StripPrefixes(name: seq<byte>) returns (r: seq<byte>)
    ensures r == Strip(name)
  {
    r := name;
    while Antisocial(r)
      invariant Strip(r) == Strip(name)
      decreases |r|
    {
      var i := 0;
      while r[i] != SLASH
        invariant 0 <= i < |r| - |AfterSlash(r)|
        decreases |r| - i
      {
        i := i + 1;
      }
      r := r[i + 1..];
    }
    if r == [] || r == [DOT, DOT] {
      r := [DOT];
    }
  }

  /** The fields before the checksum, in the order they are written. */
  method Fill(header: array<byte>, name: seq<byte>, kind: byte, size: int)
    requires header.Length == HEADER_SIZE && |name| <= 99 && -0x8000_0000 <= size <= INT_MAX
    modifies header
    ensures Filled(header[..], name, kind, size)
  {
    hide Has, Octal, Sum;
    Clear(header);
    Store(header, NAME_AT, name + [0]);
    LastIsNul(header[..], name);
    StoreOctal(header, MODE_AT, if kind == REGULAR then 420 else 493, 7);
    StoreOctal(header, UID_AT, 0, 7);
    StoreOctal(header, GID_AT, 0, 7);
    StoreOctal(header, SIZE_AT, Unsigned(size), 11);
    StoreOctal(header, MTIME_AT, 1136102400, 11);
    Store(header, TYPE_AT, [kind]);
    Store(header, MAGIC_AT, MAGIC);
    Store(header, VERSION_AT, [ZERO, ZERO]);
    Store(header, GNAME_AT, ROOT);
    Store(header, UNAME_AT, ROOT);
  }

  /** snprintf of an octal number and its null byte. */
  method StoreOctal(header: array<byte>, at: nat, value: nat, width: nat)
    requires width == 7 || width == 11
    requires at + width + 1 <= header.Length && value < (if width == 7 then 2097152 else 8589934592)
    modifies header
    ensures Has(header[..], at, Octal(value, width) + [0])
    ensures forall o: nat, b: seq<byte> ::
      Has(old(header[..]), o, b) && (o + |b| <= at || at + width + 1 <= o) ==> Has(header[..], o, b)
    ensures forall i :: 0 <= i < header.Length && !(at <= i < at + width + 1) ==> header[i] == old(header[i])
  {
    hide Has, Octal;
    OctalsFit();
    var s := FormatOctal(value, width);
    Store(header, at, s + [0]);
  }

  /** memset, and the zeros that stay in the header. */
  method Clear(header: array<byte>)
    requires header.Length == HEADER_SIZE
    modifies header
    ensures Has(header[..], PREFIX_AT, [0]) && Has(header[..], NAME_LEN - 1, [0])
  {
    var i := 0;
    while i < header.Length
      invariant 0 <= i <= header.Length
      invariant forall k :: 0 <= k < i ==> header[k] == 0
    {
      header[i] := 0;
      i := i + 1;
    }
    assert header[..][PREFIX_AT..PREFIX_AT + 1] == [0];
    assert header[..][NAME_LEN - 1..NAME_LEN] == [0];
  }

  lemma LastIsNul(h: seq<byte>, name: seq<byte>)
    requires |h| == HEADER_SIZE && |name| <= 99 && Has(h, NAME_AT, name + [0])
    requires |name| < 99 ==> Has(h, NAME_LEN - 1, [0])
    ensures Has(h, NAME_LEN - 1, [0])
  {
    if |name| == 99 {
      assert h[99] == h[0..100][99];
      assert h[99..100] == [0];
    }
  }

  /** ustar_make_header. */
  method MakeHeader(fileName: seq<byte>, kind: byte, size: int, header: array<byte>) returns (ok: bool)
    requires CString(fileName) && (kind == REGULAR || kind == DIRECTORY)
    requires -0x8000_0000 <= size <= INT_MAX && header.Length == HEADER_SIZE
    modifies header
    ensures ok <==> |Strip(fileName)| <= 99
    ensures !ok ==> header[..] == old(header[..])
    ensures ok ==> Composed(header[..], Strip(fileName), kind, size)
    ensures ok ==> Parse(header[..]) == Archived(Strip(fileName), kind, size)
  {
    hide Strip, Has, Octal, Sum, Parse, Social;
    var name := StripPrefixes(fileName);
    StripWorks(fileName);
    if |name| > 99 {
      return false;
    }
    Fill(header, name, kind, size);
    ghost var h := header[..];
    var chksum := CalculateChksum(header[..]);
    StoreOctal(header, CHKSUM_AT, chksum, 7);
    SumStable(h, header[..], HEADER_SIZE);
    RoundTrip(header[..], name, kind, size);
    ok := true;
  }

  // ---------- Parsing ----------

  /** parse_octal_field. */
  method ParseOctalField(s: seq<byte>) returns (r: Option<nat>)
    ensures r == ParseOctal(s)
  {
    var value: nat := 0;
    for ofs := 0 to |s|
      invariant ParseFrom(s, ofs, value) == ParseOctal(s)
    {
      var c := s[ofs];
      if OctalDigit(c) {
        if value > ULONG_MAX / 8 {
          return None;
        }
        value := c - ZERO + value * 8;
      } else if c == SPACE || c == 0 {
        return if ofs > 0 then Some(value) else None;
      } else {
        return None;
      }
    }
    r := None;
  }

  /** is_all_zeros. */
  method IsAllZeros(block: seq<byte>) returns (r: bool)
    ensures r <==> forall i :: 0 <= i < |block| ==> block[i] == 0
  {
    for i := 0 to |block|
      invariant forall k :: 0 <= k < i ==> block[k] == 0
    {
      if block[i] != 0 {
        return false;
      }
    }
    r := true;
  }

  /** ustar_parse_header. */
  method ParseHeader(h: seq<byte>) returns (r: Parsed)
    requires |h| == HEADER_SIZE
    ensures r == Parse(h)
    ensures r.Entry? ==> Social(r.name) && r.size <= INT_MAX
  {
    hide Sum, Strip, ParseOctal, Social;
    if Parse(h).Entry? {
      ParsedIsSocial(h);
    }
    var zeros := IsAllZeros(h);
    if zeros {
      return EndOfArchive;
    }
    if h[MAGIC_AT..MAGIC_AT + 6] != MAGIC {
      return Bad(NotUstar);
    } else if h[VERSION_AT] != ZERO || h[VERSION_AT + 1] != ZERO {
      return Bad(BadVersion);
    }
    var field := ParseOctalField(h[CHKSUM_AT..CHKSUM_AT + CHKSUM_LEN]);
    if field.None? {
      return Bad(BadChksumField);
    }
    var chksum := CalculateChksum(h);
    if field.value != chksum {
      return Bad(ChksumMismatch);
    } else if h[NAME_LEN - 1] != 0 || h[PREFIX_AT] != 0 {
      return Bad(NameTooLong);
    } else if h[TYPE_AT] != REGULAR && h[TYPE_AT] != DIRECTORY {
      return Bad(UnknownType);
    }
    var size := 0;
    if h[TYPE_AT] == REGULAR {
      var sizeField := ParseOctalField(h[SIZE_AT..SIZE_AT + SIZE_LEN]);
      if sizeField.None? {
        return Bad(BadSizeField);
      } else if sizeField.value > INT_MAX {
        return Bad(TooLarge);
      }
      size := sizeField.value;
    }
    var name := StripPrefixes(UpToNul(h[..NAME_LEN]));
    r := Entry(name, h[TYPE_AT], size);
  }
}

/** The chunked transfer coding of httplib (section 7.1 of RFC 9112): the uncompressed encoder and the decoder. */
module Chunked {
  import opened Powers
  import opened Words
  import opened Digits
  import opened ParseInt

  const CR: Byte := '\r' as int
  const LF: Byte := '\n' as int
  const CRLF: seq<Byte> := [CR, LF]
  const ULONG_MAX: nat := 0xFFFF_FFFF_FFFF_FFFF
  const HEADER_MAX_LENGTH: nat := 8192

  // ---- chunk sizes in hexadecimal ----

  function HexDigit(d: nat): Byte
    requires d < 16
  {
    if d < 10 then 48 + d else 87 + d
  }

  function Hex(n: nat): (s: seq<Byte>)
    ensures |s| > 0
    decreases n
  {
    if n < 16 then [HexDigit(n)] else Hex(n / 16) + [HexDigit(n % 16)]
  }

  /** from_i_to_hex: digits are put in front, lowest first. */
  method FromIToHex(n: nat) returns (ret: seq<Byte>)
    ensures ret == Hex(n)
  {
    ret := [HexDigit(n % 16)];
    var m := n / 16;
    while m > 0
      invariant Hex(n) == if m > 0 then Hex(m) + ret else ret
      decreases m
    {
      ret := [HexDigit(m % 16)] + ret;
      m := m / 16;
    }
  }

  /** Reading the digits back, wherever they stand. */
  lemma {:induction false} HexValue(n: nat, s: seq<Byte>, a: nat)
    requires a + |Hex(n)| <= |s| && s[a..a + |Hex(n)|] == Hex(n)
    ensures InBase(s, a, a + |Hex(n)|, 16) && Value(s, a, a + |Hex(n)|, 16) == n
    ensures forall i :: a <= i < a + |Hex(n)| ==> 48 <= s[i] <= 57 || 97 <= s[i] <= 102
    decreases n
  {
    var e := a + |Hex(n)|;
    assert s[e - 1] == Hex(n)[|Hex(n)| - 1];
    if n < 16 {
      assert Value(s, a, a, 16) == 0;
    } else {
      assert s[a..e - 1] == Hex(n)[..|Hex(n)| - 1];
      HexValue(n / 16, s, a);
    }
  }

  // ---- reading numbers and lines ----

  /** The bytes up to a terminating NUL. */
  function CString(s: seq<Byte>): seq<Byte>
  {
    if s == [] || s[0] == 0 then [] else [s[0]] + CString(s[1..])
  }

  lemma {:induction false} CStringWhole(s: seq<Byte>)
    requires forall i :: 0 <= i < |s| ==> s[i] != 0
    ensures CString(s) == s
    decreases s
  {
    if s != [] {
      CStringWhole(s[1..]);
    }
  }

  datatype Number = Unread | Number(value: nat)

  predicate HasHexPrefix(s: seq<Byte>, p: nat)
  {
    p + 2 < |s| && s[p] == 48 && s[p + 1] in {88, 120} && CharToDigit(s[p + 2]) < 16
  }

  /** Where a run of hexadecimal digits stops. */
  function HexEnd(s: seq<Byte>, p: nat): (e: nat)
    requires p <= |s|
    ensures p <= e <= |s|
    decreases |s| - p
  {
    if p < |s| && CharToDigit(s[p]) < 16 then HexEnd(s, p + 1) else p
  }

  lemma {:induction false} HexEndHere(s: seq<Byte>, p: nat, e: nat)
    requires p <= e < |s| && InBase(s, p, e, 16) && CharToDigit(s[e]) >= 16
    ensures HexEnd(s, p) == e
    decreases e - p
  {
    if p < e {
      HexEndHere(s, p + 1, e);
    }
  }

  function SpaceEnd(s: seq<Byte>, p: nat): (e: nat)
    requires p <= |s|
    ensures p <= e <= |s|
    decreases |s| - p
  {
    if p < |s| && IsSpace(s[p]) then SpaceEnd(s, p + 1) else p
  }

  /** strtoul in base 16: blanks, a sign, an optional 0x, digits; saturates at ULONG_MAX. */
  function Strtoul(s: seq<Byte>): Number
  {
    var p := SpaceEnd(s, 0);
    var signed := p < |s| && s[p] in {MINUS, PLUS};
    var q := if signed then p + 1 else p;
    var start := if HasHexPrefix(s, q) then q + 2 else q;
    var end := HexEnd(s, start);
    var v := Value(s, start, end, 16);
    if start == end then Unread
    else if v > ULONG_MAX then Number(ULONG_MAX)
    else if signed && s[p] == MINUS then Number((W64 - v) % W64)
    else Number(v)
  }

  /** Without blanks, sign and prefix, strtoul reads the leading digits. */
  lemma StrtoulPlain(s: seq<Byte>, k: nat)
    requires 0 < k < |s| && InBase(s, 0, k, 16) && CharToDigit(s[k]) >= 16 && s[k] !in {88, 120}
    ensures Strtoul(s) == Number(if Value(s, 0, k, 16) > ULONG_MAX then ULONG_MAX else Value(s, 0, k, 16))
  {
    assert CharToDigit(s[0]) < 16;
    assert SpaceEnd(s, 0) == 0;
    assert !HasHexPrefix(s, 0) by {
      assert 1 < k ==> CharToDigit(s[1]) < 16;
    }
    HexEndHere(s, 0, k);
  }

  /** A chunk size followed by CRLF reads as itself, or as ULONG_MAX when it is too large. */
  lemma StrtoulHex(n: nat)
    ensures Strtoul(Hex(n) + CRLF) == Number(if n > ULONG_MAX then ULONG_MAX else n)
  {
    HexValue(n, Hex(n) + CRLF, 0);
    StrtoulPlain(Hex(n) + CRLF, |Hex(n)|);
  }

  /** Where the line that starts at p ends: after the first CRLF, or with the input. */
  function LineEnd(s: seq<Byte>, p: nat): (e: nat)
    requires p <= |s|
    ensures p <= e <= |s| && (p < |s| ==> p < e)
    decreases |s| - p
  {
    if p == |s| then p
    else if p + 1 < |s| && s[p] == CR && s[p + 1] == LF then p + 2
    else LineEnd(s, p + 1)
  }

  lemma {:induction false} LineEndsHere(s: seq<Byte>, p: nat, e: nat)
    requires p + 2 <= e <= |s| && s[e - 2] == CR && s[e - 1] == LF && forall i :: p <= i < e - 2 ==> s[i] != CR
    ensures LineEnd(s, p) == e
    decreases e - p
  {
    if p + 2 < e {
      LineEndsHere(s, p + 1, e);
    }
  }

  // ---- what the decoder accepts ----

  /** The decoded content and where reading stopped. */
  datatype Decoded = Bad | Good(content: seq<Byte>, end: nat)

  /** The size line at p. */
  function SizeAt(s: seq<Byte>, p: nat, size: seq<Byte> -> Number): Number
    requires p <= |s|
  {
    if LineEnd(s, p) == p then Unread else size(s[p..LineEnd(s, p)])
  }

  /** How the decoder reads a size line. */
  function LineSize(line: seq<Byte>): Number { Strtoul(CString(line)) }

  /** The data of a chunk is there, and a line end after it. */
  predicate DataAt(s: seq<Byte>, p: nat, v: nat)
    requires p <= |s|
  {
    v <= |s| - p && LineEnd(s, p + v) > p + v && CString(s[p + v..LineEnd(s, p + v)]) == CRLF
  }

  function Prepend(d: seq<Byte>, rest: Decoded): Decoded { if rest.Bad? then Bad else Good(d + rest.content, rest.end) }

  /** What the chunks from p on decode to, for a given way to read size lines. */
  function Decode(s: seq<Byte>, p: nat, size: seq<Byte> -> Number): (r: Decoded)
    requires p <= |s|
    ensures r.Good? ==> p <= r.end <= |s|
    decreases |s| - p
  {
    var p1 := LineEnd(s, p);
    match SizeAt(s, p, size)
    case Unread => Bad
    case Number(v) =>
      if v == ULONG_MAX then Bad
      else if v == 0 then DecodeTrailer(s, p1, true)
      else if DataAt(s, p1, v) then Prepend(s[p1..p1 + v], Decode(s, LineEnd(s, p1 + v), size))
      else Bad
  }

  /** Header lines up to an empty line; only before the first of them may the input end. */
  function DecodeTrailer(s: seq<Byte>, p: nat, first: bool): (r: Decoded)
    requires p <= |s|
    ensures r.Good? ==> p <= r.end <= |s|
    decreases |s| - p
  {
    var e := LineEnd(s, p);
    if e == p then (if first then Good([], p) else Bad)
    else if CString(s[p..e]) == CRLF then Good([], e)
    else if e - p > HEADER_MAX_LENGTH then Bad
    else DecodeTrailer(s, e, false)
  }

  // ---- what the encoder emits ----

  function Chunk(d: seq<Byte>): seq<Byte> { Hex(|d|) + CRLF + d + CRLF }

  const LAST: seq<Byte> := ['0' as int, CR, LF]

  /** The last chunk, trailer fields and an empty line. */
  function Ending(fields: seq<seq<Byte>>): seq<Byte> { LAST + (Concat(fields) + CRLF) }

  function Encode(writes: seq<seq<Byte>>, fields: seq<seq<Byte>>): seq<Byte>
  {
    if writes == [] then Ending(fields) else Chunk(writes[0]) + Encode(writes[1..], fields)
  }

  predicate CrlfAt(s: seq<Byte>, i: int) { 0 <= i && i + 1 < |s| && s[i] == CR && s[i + 1] == LF }

  /** A header line that is not empty, with the line end after it and no other line end in it. */
  predicate FieldLine(f: seq<Byte>)
  {
    2 < |f| && CrlfAt(f, |f| - 2) && forall i :: 0 <= i < |f| - 2 ==> !CrlfAt(f, i)
  }

  predicate FieldLines(fields: seq<seq<Byte>>) { forall i :: 0 <= i < |fields| ==> FieldLine(fields[i]) }

  /** Lines that are not too long for the decoder. */
  predicate ShortLines(fields: seq<seq<Byte>>) { forall i :: 0 <= i < |fields| ==> |fields[i]| <= 8192 }

  function Concat(writes: seq<seq<Byte>>): seq<Byte>
  {
    if writes == [] then [] else writes[0] + Concat(writes[1..])
  }

  /** Chunk sizes that fit size_t and are not the value strtoul uses for overflow. */
  predicate Decodable(writes: seq<seq<Byte>>) { forall i :: 0 <= i < |writes| ==> |writes[i]| < ULONG_MAX }

  lemma BytesAt(s: seq<Byte>, p: nat, t: seq<Byte>)
    requires p + |t| <= |s| && s[p..p + |t|] == t
    ensures forall i :: p <= i < p + |t| ==> s[i] == t[i - p]
  {
    forall i | p <= i < p + |t|
      ensures s[i] == t[i - p]
    {
      assert s[i] == s[p..p + |t|][i - p];
    }
  }

  function Capped(n: nat): nat { if n > ULONG_MAX then ULONG_MAX else n }

  /** A way to read size lines that is right about the lines the encoder writes. */
  ghost predicate ReadsSizes(size: seq<Byte> -> Number)
  {
    forall n: nat :: size(Hex(n) + CRLF) == Number(Capped(n))
  }

  lemma LineSizeReads()
    ensures ReadsSizes(LineSize)
  {
    forall n: nat
      ensures LineSize(Hex(n) + CRLF) == Number(Capped(n))
    {
      HexLine(Hex(n) + CRLF, 0, n);
      StrtoulHex(n);
    }
  }

  lemma DecodeOverflow(s: seq<Byte>, p: nat, size: seq<Byte> -> Number)
    requires p <= |s| && SizeAt(s, p, size) == Number(ULONG_MAX)
    ensures Decode(s, p, size) == Bad
  {
  }

  lemma DecodeLast(s: seq<Byte>, p: nat, p1: nat, size: seq<Byte> -> Number)
    requires p <= |s| && LineEnd(s, p) == p1 && SizeAt(s, p, size) == Number(0)
    ensures Decode(s, p, size) == DecodeTrailer(s, p1, true)
  {
  }

  lemma DecodeData(s: seq<Byte>, p: nat, p1: nat, v: nat, size: seq<Byte> -> Number)
    requires p <= |s| && LineEnd(s, p) == p1 && SizeAt(s, p, size) == Number(v) && v != 0 && v != ULONG_MAX && DataAt(s, p1, v)
    ensures Decode(s, p, size) == Prepend(s[p1..p1 + v], Decode(s, LineEnd(s, p1 + v), size))
  {
  }

  lemma DecodeDone(s: seq<Byte>, p: nat, fields: seq<seq<Byte>>, size: seq<Byte> -> Number)
    requires ReadsSizes(size) && FieldLines(fields)
    requires p + |Ending(fields)| <= |s| && s[p..p + |Ending(fields)|] == Ending(fields)
    ensures Decode(s, p, size) == if ShortLines(fields) then Good([], p + |Ending(fields)|) else Bad
  {
    var rest, e := Concat(fields) + CRLF, p + |Ending(fields)|;
    SplitAt(s, p, LAST, rest);
    assert LAST == Hex(0) + CRLF;
    SizeLine(s, p, 0, size);
    DecodeLast(s, p, p + 3, size);
    TrailerDecodes(fields, s, p + 3, true);
  }

  /** Two pieces in the input, one after the other. */
  lemma SplitAt(s: seq<Byte>, p: nat, a: seq<Byte>, b: seq<Byte>)
    requires p + |a + b| <= |s| && s[p..p + |a + b|] == a + b
    ensures s[p..p + |a|] == a && s[p + |a|..p + |a + b|] == b
  {
    var whole := s[p..p + |a + b|];
    assert s[p..p + |a|] == whole[..|a|];
    assert s[p + |a|..p + |a + b|] == whole[|a|..];
  }

  /** Trailer fields are read up to the empty line, if and only if none is too long. */
  lemma {:induction false} TrailerDecodes(fields: seq<seq<Byte>>, s: seq<Byte>, p: nat, first: bool)
    requires FieldLines(fields)
    requires p + |Concat(fields) + CRLF| <= |s| && s[p..p + |Concat(fields) + CRLF|] == Concat(fields) + CRLF
    ensures DecodeTrailer(s, p, first) == if ShortLines(fields) then Good([], p + |Concat(fields)| + 2) else Bad
    decreases fields
  {
    if fields == [] {
      assert s[p..p + 2] == CRLF;
      BlankLine(s, p);
    } else {
      var f := fields[0];
      FieldHere(fields, s, p, p + |f|, first);
      if |f| <= 8192 {
        TrailerDecodes(fields[1..], s, p + |f|, false);
      }
    }
  }

  lemma FieldHere(fields: seq<seq<Byte>>, s: seq<Byte>, p: nat, e: nat, first: bool)
    requires FieldLines(fields) && fields != [] && e == p + |fields[0]|
    requires p + |Concat(fields) + CRLF| <= |s| && s[p..p + |Concat(fields) + CRLF|] == Concat(fields) + CRLF
    ensures e + |Concat(fields[1..]) + CRLF| == p + |Concat(fields) + CRLF|
    ensures s[e..e + |Concat(fields[1..]) + CRLF|] == Concat(fields[1..]) + CRLF && s[p..e] == fields[0]
    ensures DecodeTrailer(s, p, first) == if |fields[0]| > 8192 then Bad else DecodeTrailer(s, e, false)
    ensures ShortLines(fields) <==> |fields[0]| <= 8192 && ShortLines(fields[1..])
  {
    var f, rest := fields[0], Concat(fields[1..]) + CRLF;
    assert Concat(fields) + CRLF == f + rest;
    SplitAt(s, p, f, rest);
    FieldEnds(s, p, f);
    TrailerStep(s, p, e, first);
  }

  lemma TrailerStep(s: seq<Byte>, p: nat, e: nat, first: bool)
    requires p < e <= |s| && LineEnd(s, p) == e && CString(s[p..e]) != CRLF
    ensures DecodeTrailer(s, p, first) == if e - p > 8192 then Bad else DecodeTrailer(s, e, false)
  {
  }

  lemma FieldEnds(s: seq<Byte>, p: nat, f: seq<Byte>)
    requires FieldLine(f) && p + |f| <= |s| && s[p..p + |f|] == f
    ensures LineEnd(s, p) == p + |f| && CString(f) != CRLF
  {
    BytesAt(s, p, f);
    forall i | p <= i < p + |f| - 2
      ensures !CrlfAt(s, i)
    {
      assert !CrlfAt(f, i - p);
    }
    LineEndsAt(s, p, p + |f|);
    if CString(f) == CRLF {
      CStringHead(f);
      assert f[0] == CRLF[0] && f[1] == CRLF[1];
      assert CrlfAt(f, 0);
    }
  }

  /** A C string is a prefix of the bytes. */
  lemma CStringHead(s: seq<Byte>)
    requires |CString(s)| == 2
    ensures |s| >= 2 && CString(s) == s[..2]
  {
    assert CString(s) == [s[0]] + CString(s[1..]);
    assert CString(s[1..]) == [s[1]] + CString(s[1..][1..]);
  }

  /** e is where the line at p ends: after its first CRLF, or with the input. */
  predicate IsLine(s: seq<Byte>, p: nat, e: nat)
  {
    && p < e <= |s| && ((p + 2 <= e && CrlfAt(s, e - 2)) || e == |s|)
    && forall i :: p <= i < e - 2 ==> !CrlfAt(s, i)
  }

  lemma {:induction false} LineEndsAt(s: seq<Byte>, p: nat, e: nat)
    requires IsLine(s, p, e)
    ensures LineEnd(s, p) == e
    decreases e - p
  {
    if CrlfAt(s, p) {
      assert e == p + 2;
    } else if p + 1 < e {
      LineEndsAt(s, p + 1, e);
    }
  }

  lemma {:induction false} LineIsLine(s: seq<Byte>, p: nat)
    requires p < |s|
    ensures IsLine(s, p, LineEnd(s, p))
    decreases |s| - p
  {
    if !(p + 1 < |s| && s[p] == CR && s[p + 1] == LF) && p + 1 < |s| {
      LineIsLine(s, p + 1);
    }
  }

  /** The size line of a chunk has no CR before its end and no NUL. */
  lemma HexLine(s: seq<Byte>, p: nat, n: nat)
    requires p + |Hex(n)| + 2 <= |s| && s[p..p + |Hex(n)| + 2] == Hex(n) + CRLF
    ensures LineEnd(s, p) == p + |Hex(n)| + 2 && CString(Hex(n) + CRLF) == Hex(n) + CRLF
  {
    var line, k := Hex(n) + CRLF, |Hex(n)|;
    HexValue(n, line, 0);
    BytesAt(s, p, line);
    assert s[p + k] == CR && s[p + k + 1] == LF;
    forall i | p <= i < p + k
      ensures s[i] != CR
    {
      assert s[i] == line[i - p];
    }
    LineEndsHere(s, p, p + k + 2);
    CStringWhole(line);
  }

  lemma SizeLine(s: seq<Byte>, p: nat, n: nat, size: seq<Byte> -> Number)
    requires ReadsSizes(size)
    requires p + |Hex(n)| + 2 <= |s| && s[p..p + |Hex(n)| + 2] == Hex(n) + CRLF
    ensures LineEnd(s, p) == p + |Hex(n)| + 2 && SizeAt(s, p, size) == Number(Capped(n))
  {
    HexLine(s, p, n);
  }

  /** Three pieces in the input, one after the other. */
  lemma Pieces(s: seq<Byte>, p: nat, p1: nat, p2: nat, p3: nat, a: seq<Byte>, b: seq<Byte>, c: seq<Byte>)
    requires p1 == p + |a| && p2 == p1 + |b| && p3 == p2 + |c| <= |s| && s[p..p3] == a + b + c
    ensures s[p..p1] == a && s[p1..p2] == b && s[p2..p3] == c
  {
    var t := a + b + c;
    forall i | p <= i < p3
      ensures s[i] == t[i - p]
    {
      assert s[i] == s[p..p3][i - p];
    }
  }

  lemma DataLine(s: seq<Byte>, p: nat, v: nat)
    requires p + v + 2 <= |s| && s[p + v..p + v + 2] == CRLF
    ensures LineEnd(s, p + v) == p + v + 2 && DataAt(s, p, v)
  {
    BlankLine(s, p + v);
  }

  lemma BlankLine(s: seq<Byte>, p: nat)
    requires p + 2 <= |s| && s[p..p + 2] == CRLF
    ensures LineEnd(s, p) == p + 2 && CString(s[p..p + 2]) == CRLF
  {
    assert s[p] == s[p..p + 2][0] && s[p + 1] == s[p..p + 2][1];
    LineEndsHere(s, p, p + 2);
    CStringWhole(CRLF);
  }

  /** What the decoder sees of a chunk. */
  lemma ChunkAt(s: seq<Byte>, p: nat, d: seq<Byte>, p1: nat, p2: nat, size: seq<Byte> -> Number)
    requires ReadsSizes(size)
    requires p1 == p + |Hex(|d|)| + 2 && p2 == p1 + |d| && p2 + 2 <= |s|
    requires s[p..p1] == Hex(|d|) + CRLF && s[p2..p2 + 2] == CRLF
    ensures LineEnd(s, p) == p1 && SizeAt(s, p, size) == Number(Capped(|d|))
    ensures LineEnd(s, p2) == p2 + 2 && DataAt(s, p1, |d|)
  {
    SizeLine(s, p, |d|, size);
    DataLine(s, p1, |d|);
  }

  lemma ChunkSeen(s: seq<Byte>, p: nat, d: seq<Byte>, p1: nat, p2: nat, p': nat, size: seq<Byte> -> Number)
    requires ReadsSizes(size)
    requires p1 == p + |Hex(|d|)| + 2 && p2 == p1 + |d| && p' == p2 + 2 <= |s| && s[p..p'] == Chunk(d)
    ensures s[p1..p2] == d && LineEnd(s, p) == p1 && SizeAt(s, p, size) == Number(Capped(|d|))
    ensures LineEnd(s, p2) == p' && DataAt(s, p1, |d|)
  {
    Pieces(s, p, p1, p2, p', Hex(|d|) + CRLF, d, CRLF);
    ChunkAt(s, p, d, p1, p2, size);
  }

  lemma DecodeStep(s: seq<Byte>, p: nat, d: seq<Byte>, p1: nat, p2: nat, size: seq<Byte> -> Number)
    requires p <= p1 <= p2 == p1 + |d| && p2 + 2 <= |s| && s[p1..p2] == d && d != []
    requires LineEnd(s, p) == p1 && SizeAt(s, p, size) == Number(Capped(|d|))
    requires LineEnd(s, p2) == p2 + 2 && DataAt(s, p1, |d|)
    ensures |d| >= ULONG_MAX ==> Decode(s, p, size) == Bad
    ensures |d| < ULONG_MAX ==> Decode(s, p, size) == Prepend(d, Decode(s, p2 + 2, size))
  {
    if |d| >= ULONG_MAX {
      DecodeOverflow(s, p, size);
    } else {
      DecodeData(s, p, p1, |d|, size);
    }
  }

  /** One chunk is taken off exactly, or refused because of its size. */
  lemma DecodeChunk(s: seq<Byte>, p: nat, d: seq<Byte>, p': nat, size: seq<Byte> -> Number)
    requires ReadsSizes(size)
    requires p' == p + |Chunk(d)| <= |s| && s[p..p'] == Chunk(d) && d != []
    ensures |d| >= ULONG_MAX ==> Decode(s, p, size) == Bad
    ensures |d| < ULONG_MAX ==> Decode(s, p, size) == Prepend(d, Decode(s, p', size))
  {
    var p1 := p + |Hex(|d|)| + 2;
    var p2 := p1 + |d|;
    ChunkSeen(s, p, d, p1, p2, p', size);
    DecodeStep(s, p, d, p1, p2, size);
  }

  lemma {:induction false} DecodeEncoded(writes: seq<seq<Byte>>, fields: seq<seq<Byte>>, s: seq<Byte>, p: nat, size: seq<Byte> -> Number)
    requires ReadsSizes(size) && FieldLines(fields) && forall i :: 0 <= i < |writes| ==> writes[i] != []
    requires p + |Encode(writes, fields)| <= |s| && s[p..p + |Encode(writes, fields)|] == Encode(writes, fields)
    ensures Decode(s, p, size) == if Decodable(writes) && ShortLines(fields) then Good(Concat(writes), p + |Encode(writes, fields)|) else Bad
    decreases writes
  {
    if writes == [] {
      DecodeDone(s, p, fields, size);
    } else {
      var q := EncodedHead(writes, fields, s, p);
      DecodeChunk(s, p, writes[0], q, size);
      DecodeEncoded(writes[1..], fields, s, q, size);
      Joins(writes[0], Concat(writes[1..]), q + |Encode(writes[1..], fields)|);
    }
  }

  lemma EncodedHead(writes: seq<seq<Byte>>, fields: seq<seq<Byte>>, s: seq<Byte>, p: nat) returns (q: nat)
    requires writes != [] && p + |Encode(writes, fields)| <= |s| && s[p..p + |Encode(writes, fields)|] == Encode(writes, fields)
    ensures q == p + |Chunk(writes[0])| && q + |Encode(writes[1..], fields)| == p + |Encode(writes, fields)|
    ensures s[p..q] == Chunk(writes[0]) && s[q..q + |Encode(writes[1..], fields)|] == Encode(writes[1..], fields)
    ensures Decodable(writes) <==> |writes[0]| < ULONG_MAX && Decodable(writes[1..])
  {
    q := p + |Chunk(writes[0])|;
    SplitAt(s, p, Chunk(writes[0]), Encode(writes[1..], fields));
  }

  lemma Joins(d: seq<Byte>, rest: seq<Byte>, end: nat)
    ensures Prepend(d, Good(rest, end)) == Good(d + rest, end)
  {
  }

  /**
   * Decoding what was encoded, with any trailer fields after it, gives the concatenation of the writes back and stops
   * exactly at the end of the encoding, whatever follows, if and only if no write is as large as ULONG_MAX and no field
   * is longer than 8192 bytes.
   */
  lemma RoundTrip(writes: seq<seq<Byte>>, fields: seq<seq<Byte>>, before: seq<Byte>, after: seq<Byte>)
    requires FieldLines(fields) && forall i :: 0 <= i < |writes| ==> writes[i] != []
    ensures Decode(before + Encode(writes, fields) + after, |before|, LineSize)
         == if Decodable(writes) && ShortLines(fields) then Good(Concat(writes), |before + Encode(writes, fields)|) else Bad
  {
    var s := before + Encode(writes, fields) + after;
    LineSizeReads();
    assert s[|before|..|before| + |Encode(writes, fields)|] == Encode(writes, fields);
    DecodeEncoded(writes, fields, s, |before|, LineSize);
  }

  // ---- what the decoder accepts, in text ----

  /** A number as strtoul reads it: blanks, a sign, 0x before another digit, and all digits that follow. */
  predicate NumeralAt(w: seq<Byte>, first: nat, q: nat, start: nat, end: nat)
  {
    && first <= |w| && (forall i :: 0 <= i < first ==> IsSpace(w[i])) && (first < |w| ==> !IsSpace(w[first]))
    && q == (if first < |w| && w[first] in {MINUS, PLUS} then first + 1 else first)
    && start == (if HasHexPrefix(w, q) then q + 2 else q)
    && DigitRun(w, start, end, 16)
  }

  /** The size line says v: digits are there, and the number they mean is v, negated modulo 2^64 after a minus. */
  ghost predicate SizeText(line: seq<Byte>, v: nat)
  {
    exists w: seq<Byte>, first: nat, q: nat, start: nat, end: nat :: SizeParts(line, v, w, first, q, start, end)
  }

  predicate SizeParts(line: seq<Byte>, v: nat, w: seq<Byte>, first: nat, q: nat, start: nat, end: nat)
  {
    && w <= line && (forall i :: 0 <= i < |w| ==> w[i] != 0) && (|w| < |line| ==> line[|w|] == 0)
    && NumeralAt(w, first, q, start, end) && start < end && v == Says(w, first, q, start, end)
  }

  /** The trailer: nothing at the end of the input, or fields of at most 8192 bytes and an empty line. */
  ghost predicate TrailerText(s: seq<Byte>, p: nat, end: nat)
  {
    || p == end == |s|
    || exists fields :: FieldLines(fields) && ShortLines(fields) && p <= end <= |s| && s[p..end] == Concat(fields) + CRLF
  }

  /** A chunk with data d, its size line up to e, and the line end after the data. */
  ghost predicate ChunkText(s: seq<Byte>, p: nat, e: nat, d: seq<Byte>)
  {
    && p <= e && e + |d| + 2 <= |s| && 0 < |d| < ULONG_MAX && SizeText(s[p..e], |d|)
    && s[e..e + |d|] == d && s[e + |d|..e + |d| + 2] == CRLF
  }

  /** The chunk from p to q, with its size line up to e. */
  ghost predicate HeadAt(s: seq<Byte>, p: nat, e: nat, q: nat, d: seq<Byte>)
  {
    IsLine(s, p, e) && ChunkText(s, p, e, d) && q == e + |d| + 2
  }

  /** The chunks with the given data, a last chunk and the trailer. */
  ghost predicate BodyText(s: seq<Byte>, p: nat, datas: seq<seq<Byte>>, end: nat)
    decreases datas
  {
    if datas == [] then exists e: nat :: IsLine(s, p, e) && SizeText(s[p..e], 0) && TrailerText(s, e, end)
    else exists e: nat, q: nat :: HeadAt(s, p, e, q, datas[0]) && BodyText(s, q, datas[1..], end)
  }

  lemma {:induction false} CStringIs(line: seq<Byte>, w: seq<Byte>)
    requires w <= line && (forall i :: 0 <= i < |w| ==> w[i] != 0) && (|w| < |line| ==> line[|w|] == 0)
    ensures CString(line) == w
    decreases w
  {
    if w != [] {
      assert w[1..] <= line[1..];
      CStringIs(line[1..], w[1..]);
    }
  }

  lemma {:induction false} CStringText(line: seq<Byte>)
    ensures var w := CString(line); w <= line && (forall i :: 0 <= i < |w| ==> w[i] != 0) && (|w| < |line| ==> line[|w|] == 0)
    decreases line
  {
    if line != [] && line[0] != 0 {
      CStringText(line[1..]);
    }
  }

  lemma {:induction false} SpaceEndIs(w: seq<Byte>, a: nat, first: nat)
    requires a <= first <= |w| && (forall i :: a <= i < first ==> IsSpace(w[i])) && (first < |w| ==> !IsSpace(w[first]))
    ensures SpaceEnd(w, a) == first
    decreases first - a
  {
    if a < first {
      SpaceEndIs(w, a + 1, first);
    }
  }

  lemma {:induction false} SpaceEndText(w: seq<Byte>, a: nat)
    requires a <= |w|
    ensures var e := SpaceEnd(w, a); (forall i :: a <= i < e ==> IsSpace(w[i])) && (e < |w| ==> !IsSpace(w[e]))
    decreases |w| - a
  {
    if a < |w| && IsSpace(w[a]) {
      SpaceEndText(w, a + 1);
    }
  }

  lemma {:induction false} HexEndIs(w: seq<Byte>, start: nat, end: nat)
    requires DigitRun(w, start, end, 16)
    ensures HexEnd(w, start) == end
    decreases end - start
  {
    if start < end {
      HexEndIs(w, start + 1, end);
    }
  }

  lemma {:induction false} HexEndText(w: seq<Byte>, start: nat)
    requires start <= |w|
    ensures DigitRun(w, start, HexEnd(w, start), 16)
    decreases |w| - start
  {
    if start < |w| && CharToDigit(w[start]) < 16 {
      HexEndText(w, start + 1);
    }
  }

  /** The number that a size line with these parts says. */
  function Says(w: seq<Byte>, first: nat, q: nat, start: nat, end: nat): nat
    requires first <= q <= |w| && start <= end <= |w| && (first < q ==> first < |w|)
  {
    var v := Value(w, start, end, 16);
    if v > ULONG_MAX then ULONG_MAX else if q > first && w[first] == MINUS then (W64 - v) % W64 else v
  }

  lemma NumeralRead(w: seq<Byte>, first: nat, q: nat, start: nat, end: nat)
    requires NumeralAt(w, first, q, start, end)
    ensures Strtoul(w) == if start < end then Number(Says(w, first, q, start, end)) else Unread
  {
    SpaceEndIs(w, 0, first);
    HexEndIs(w, start, end);
  }

  lemma NumeralIn(w: seq<Byte>) returns (first: nat, q: nat, start: nat, end: nat)
    ensures NumeralAt(w, first, q, start, end)
  {
    first := SpaceEnd(w, 0);
    SpaceEndText(w, 0);
    q := if first < |w| && w[first] in {MINUS, PLUS} then first + 1 else first;
    start := if HasHexPrefix(w, q) then q + 2 else q;
    end := HexEnd(w, start);
    HexEndText(w, start);
  }

  /** A way to read size lines that reads what they say. */
  ghost predicate ReadsText(size: seq<Byte> -> Number)
  {
    forall line: seq<Byte>, v: nat {:trigger SizeText(line, v)} :: SizeText(line, v) <==> size(line) == Number(v)
  }

  lemma LineSizeText()
    ensures ReadsText(LineSize)
  {
    forall line: seq<Byte>, v: nat
      ensures SizeText(line, v) <==> LineSize(line) == Number(v)
    {
      SizeLineText(line, v);
    }
  }

  lemma SizeLineText(line: seq<Byte>, v: nat)
    ensures SizeText(line, v) <==> LineSize(line) == Number(v)
  {
    if SizeText(line, v) {
      var w: seq<Byte>, first: nat, q: nat, start: nat, end: nat :| SizeParts(line, v, w, first, q, start, end);
      CStringIs(line, w);
      NumeralRead(w, first, q, start, end);
    }
    if LineSize(line) == Number(v) {
      var w := CString(line);
      CStringText(line);
      var first, q, start, end := NumeralIn(w);
      NumeralRead(w, first, q, start, end);
      assert SizeParts(line, v, w, first, q, start, end);
    }
  }

  /** The trailer that was accepted, field by field. */
  lemma {:induction false} TrailerFields(s: seq<Byte>, p: nat, first: bool) returns (fields: seq<seq<Byte>>)
    requires p < |s| && DecodeTrailer(s, p, first).Good?
    ensures FieldLines(fields) && ShortLines(fields)
    ensures var end := DecodeTrailer(s, p, first).end; p <= end <= |s| && s[p..end] == Concat(fields) + CRLF
    decreases |s| - p
  {
    var e := LineEnd(s, p);
    LineIsLine(s, p);
    if CString(s[p..e]) == CRLF {
      fields := [];
      EmptyLine(s, p, e);
    } else {
      var f := s[p..e];
      var more := TrailerFields(s, e, false);
      LineIsField(s, p, e);
      fields := [f] + more;
      var end := DecodeTrailer(s, p, first).end;
      assert s[p..end] == f + s[e..end];
    }
  }

  lemma EmptyLine(s: seq<Byte>, p: nat, e: nat)
    requires IsLine(s, p, e) && CString(s[p..e]) == CRLF
    ensures e == p + 2 && s[p..e] == CRLF
  {
    CStringHead(s[p..e]);
    assert s[p] == s[p..e][..2][0] && s[p + 1] == s[p..e][..2][1];
    assert CrlfAt(s, p);
  }

  lemma LineIsField(s: seq<Byte>, p: nat, e: nat)
    requires IsLine(s, p, e) && e < |s| && CString(s[p..e]) != CRLF
    ensures FieldLine(s[p..e])
  {
    var f := s[p..e];
    assert CrlfAt(f, |f| - 2);
    forall i | 0 <= i < |f| - 2
      ensures !CrlfAt(f, i)
    {
      assert !CrlfAt(s, p + i);
    }
    if |f| == 2 {
      assert f == CRLF;
      CStringWhole(f);
    }
  }

  lemma TrailerMeaning(s: seq<Byte>, p: nat, end: nat)
    requires p <= |s|
    ensures TrailerText(s, p, end) <==> DecodeTrailer(s, p, true) == Good([], end)
  {
    TrailerEmpty(s, p, true);
    if DecodeTrailer(s, p, true).Good? && p < |s| {
      var fields := TrailerFields(s, p, true);
    }
    if TrailerText(s, p, end) && !(p == end == |s|) {
      var fields :| FieldLines(fields) && ShortLines(fields) && p <= end <= |s| && s[p..end] == Concat(fields) + CRLF;
      assert |s[p..end]| == end - p;
      TrailerDecodes(fields, s, p, true);
    }
  }

  lemma LastDecodes(s: seq<Byte>, p: nat, e: nat, end: nat, size: seq<Byte> -> Number)
    requires ReadsText(size) && IsLine(s, p, e) && SizeText(s[p..e], 0) && TrailerText(s, e, end)
    ensures Decode(s, p, size) == Good([], end)
  {
    LineEndsAt(s, p, e);
    DecodeLast(s, p, e, size);
    TrailerMeaning(s, e, end);
  }

  /** What the decoder sees of a chunk in the text. */
  lemma ChunkSeenText(s: seq<Byte>, p: nat, e: nat, v: nat, size: seq<Byte> -> Number)
    requires ReadsText(size) && IsLine(s, p, e) && SizeText(s[p..e], v) && e + v + 2 <= |s| && s[e + v..e + v + 2] == CRLF
    ensures LineEnd(s, p) == e && SizeAt(s, p, size) == Number(v) && DataAt(s, e, v) && LineEnd(s, e + v) == e + v + 2
  {
    LineEndsAt(s, p, e);
    DataLine(s, e, v);
  }

  /** A last chunk that was accepted. */
  lemma LastDecoded(s: seq<Byte>, p: nat, size: seq<Byte> -> Number)
    requires p <= |s| && ReadsText(size) && Decode(s, p, size).Good? && SizeAt(s, p, size) == Number(0)
    ensures Decode(s, p, size).content == [] && BodyText(s, p, [], Decode(s, p, size).end)
  {
    var e, end := LineEnd(s, p), Decode(s, p, size).end;
    LineIsLine(s, p);
    DecodeLast(s, p, e, size);
    TrailerEmpty(s, e, true);
    TrailerMeaning(s, e, end);
    assert SizeText(s[p..e], 0);
  }

  /** A chunk that was accepted. */
  lemma ChunkDecoded(s: seq<Byte>, p: nat, size: seq<Byte> -> Number) returns (e: nat, q: nat, d: seq<Byte>)
    requires p <= |s| && ReadsText(size) && Decode(s, p, size).Good? && SizeAt(s, p, size) != Number(0)
    ensures p < q <= |s| && HeadAt(s, p, e, q, d)
    ensures Decode(s, p, size) == Prepend(d, Decode(s, q, size)) && Decode(s, q, size).Good?
  {
    var v := AcceptedSize(s, p, size);
    e, d, q := AcceptedChunk(s, p, v);
    DecodeStep(s, p, d, e, e + |d|, size);
  }

  lemma AcceptedChunk(s: seq<Byte>, p: nat, v: nat) returns (e: nat, d: seq<Byte>, q: nat)
    requires 0 < v < ULONG_MAX && p <= |s| && IsLine(s, p, LineEnd(s, p)) && DataAt(s, LineEnd(s, p), v) && SizeText(s[p..LineEnd(s, p)], v)
    ensures HeadAt(s, p, e, q, d) && e == LineEnd(s, p) && |d| == v && q == LineEnd(s, e + v) == e + v + 2
  {
    e := LineEnd(s, p);
    d, q := s[e..e + v], e + v + 2;
    DataIsText(s, e, v);
  }

  lemma AcceptedSize(s: seq<Byte>, p: nat, size: seq<Byte> -> Number) returns (v: nat)
    requires p <= |s| && ReadsText(size) && Decode(s, p, size).Good? && SizeAt(s, p, size) != Number(0)
    ensures 0 < v < ULONG_MAX && SizeAt(s, p, size) == Number(v) && IsLine(s, p, LineEnd(s, p)) && DataAt(s, LineEnd(s, p), v)
    ensures SizeText(s[p..LineEnd(s, p)], v)
  {
    LineIsLine(s, p);
    v := SizeAt(s, p, size).value;
    assert SizeText(s[p..LineEnd(s, p)], v);
  }

  lemma DataIsText(s: seq<Byte>, e: nat, v: nat)
    requires e <= |s| && DataAt(s, e, v)
    ensures e + v + 2 <= |s| && s[e + v..e + v + 2] == CRLF && LineEnd(s, e + v) == e + v + 2
  {
    LineIsLine(s, e + v);
    EmptyLine(s, e + v, LineEnd(s, e + v));
  }

  /** The decoder accepts exactly the chunked bodies and delivers their data. */
  lemma {:induction false} BodyDecodes(s: seq<Byte>, p: nat, datas: seq<seq<Byte>>, end: nat, size: seq<Byte> -> Number)
    requires p <= |s| && ReadsText(size) && BodyText(s, p, datas, end)
    ensures Decode(s, p, size) == Good(Concat(datas), end)
    decreases datas
  {
    if datas == [] {
      BodyLast(s, p, end, size);
    } else {
      var q := BodyHead(s, p, datas, end, size);
      BodyDecodes(s, q, datas[1..], end, size);
      Joins(datas[0], Concat(datas[1..]), end);
    }
  }

  lemma BodyLast(s: seq<Byte>, p: nat, end: nat, size: seq<Byte> -> Number)
    requires p <= |s| && ReadsText(size) && BodyText(s, p, [], end)
    ensures Decode(s, p, size) == Good([], end)
  {
    var e: nat :| IsLine(s, p, e) && SizeText(s[p..e], 0) && TrailerText(s, e, end);
    LastDecodes(s, p, e, end, size);
  }

  lemma BodyHead(s: seq<Byte>, p: nat, datas: seq<seq<Byte>>, end: nat, size: seq<Byte> -> Number) returns (q: nat)
    requires p <= |s| && ReadsText(size) && datas != [] && BodyText(s, p, datas, end)
    ensures q <= |s| && BodyText(s, q, datas[1..], end) && Decode(s, p, size) == Prepend(datas[0], Decode(s, q, size))
  {
    var e;
    e, q := HeadText(s, p, datas, end);
    HeadDecodes(s, p, e, q, datas[0], size);
  }

  lemma HeadDecodes(s: seq<Byte>, p: nat, e: nat, q: nat, d: seq<Byte>, size: seq<Byte> -> Number)
    requires ReadsText(size) && HeadAt(s, p, e, q, d)
    ensures Decode(s, p, size) == Prepend(d, Decode(s, q, size))
  {
    ChunkSeenText(s, p, e, |d|, size);
    DecodeStep(s, p, d, e, e + |d|, size);
  }

  lemma HeadText(s: seq<Byte>, p: nat, datas: seq<seq<Byte>>, end: nat) returns (e: nat, q: nat)
    requires datas != [] && BodyText(s, p, datas, end)
    ensures HeadAt(s, p, e, q, datas[0]) && q <= |s| && BodyText(s, q, datas[1..], end)
  {
    e, q :| HeadAt(s, p, e, q, datas[0]) && BodyText(s, q, datas[1..], end);
  }

  lemma {:induction false} DecodedBody(s: seq<Byte>, p: nat, size: seq<Byte> -> Number) returns (datas: seq<seq<Byte>>)
    requires p <= |s| && ReadsText(size) && Decode(s, p, size).Good?
    ensures BodyText(s, p, datas, Decode(s, p, size).end) && Decode(s, p, size).content == Concat(datas)
    decreases |s| - p
  {
    if SizeAt(s, p, size) == Number(0) {
      datas := [];
      LastDecoded(s, p, size);
    } else {
      var e, q, d := ChunkDecoded(s, p, size);
      var more := DecodedBody(s, q, size);
      datas := OneMore(s, p, e, q, d, more, Decode(s, p, size).end);
    }
  }

  lemma OneMore(s: seq<Byte>, p: nat, e: nat, q: nat, d: seq<Byte>, more: seq<seq<Byte>>, end: nat) returns (datas: seq<seq<Byte>>)
    requires HeadAt(s, p, e, q, d) && BodyText(s, q, more, end)
    ensures BodyText(s, p, datas, end) && Concat(datas) == d + Concat(more)
  {
    datas := [d] + more;
    assert datas[0] == d && datas[1..] == more;
    assert HeadAt(s, p, e, q, datas[0]) && BodyText(s, q, datas[1..], end);
  }

  lemma DecodeMeaning(s: seq<Byte>, p: nat)
    requires p <= |s|
    ensures var r := Decode(s, p, LineSize); r.Good? ==> exists datas :: BodyText(s, p, datas, r.end) && r.content == Concat(datas)
    ensures Decode(s, p, LineSize).Bad? ==> forall datas, end :: !BodyText(s, p, datas, end)
  {
    LineSizeText();
    if Decode(s, p, LineSize).Good? {
      var datas := DecodedBody(s, p, LineSize);
    } else {
      NoBody(s, p, LineSize);
    }
  }

  lemma NoBody(s: seq<Byte>, p: nat, size: seq<Byte> -> Number)
    requires p <= |s| && ReadsText(size) && Decode(s, p, size).Bad?
    ensures forall datas, end :: !BodyText(s, p, datas, end)
  {
    forall datas, end
      ensures !BodyText(s, p, datas, end)
    {
      if BodyText(s, p, datas, end) {
        BodyDecodes(s, p, datas, end, size);
      }
    }
  }

  // ---- the decoder at work ----

  /** The connection: a fixed input that is handed out in pieces of any size. */
  class Stream {
    const data: seq<Byte>
    var pos: nat

    ghost predicate Valid()
      reads this
    {
      pos <= |data|
    }

    constructor (data: seq<Byte>)
      ensures this.data == data && pos == 0 && Valid()
    {
      this.data, pos := data, 0;
    }

    /** At least one and at most `limit` bytes, unless the input has ended. */
    method Read(limit: nat) returns (bytes: seq<Byte>)
      requires Valid() && 0 < limit
      modifies this
      ensures Valid() && |bytes| <= limit && pos == old(pos) + |bytes| && bytes == data[old(pos)..pos]
      ensures bytes == [] <==> old(pos) == |data|
    {
      bytes := [];
      if pos < |data| {
        var n: nat :| 0 < n <= limit && n <= |data| - pos;
        bytes := data[pos..pos + n];
        pos := pos + n;
      }
    }
  }

  /** Where a scan for CRLF stands: on a CR just read, or after the byte read last. */
  function Resume(p: nat, afterCr: bool): nat { if afterCr && p > 0 then p - 1 else p }

  lemma ScanByte(s: seq<Byte>, p: nat, afterCr: bool)
    requires p < |s| && (afterCr ==> p > 0 && s[p - 1] == CR)
    ensures afterCr && s[p] == LF ==> LineEnd(s, Resume(p, afterCr)) == p + 1
    ensures !(afterCr && s[p] == LF) ==> LineEnd(s, Resume(p, afterCr)) == LineEnd(s, Resume(p + 1, s[p] == CR))
  {
    if p + 1 == |s| {
      assert LineEnd(s, p + 1) == p + 1;
    }
  }

  /** stream_line_reader: a line in a fixed buffer, or in a growing one when it does not fit. */
  class LineReader {
    const strm: Stream
    const fixed: array<Byte>
    var used: nat
    var growable: seq<Byte>

    ghost predicate Valid()
      reads this, strm
    {
      2 <= fixed.Length && used < fixed.Length && (growable != [] ==> used == fixed.Length - 1) && strm.Valid()
    }

    function Line(): seq<Byte>
      requires used < fixed.Length
      reads this, fixed
    {
      if growable == [] then fixed[..used] else growable
    }

    constructor (strm: Stream, size: nat)
      requires strm.Valid() && 2 <= size
      ensures Valid() && this.strm == strm && fresh(fixed)
    {
      this.strm, fixed, used, growable := strm, new Byte[size](_ => 0), 0, [];
    }

    method Append(c: Byte)
      requires Valid()
      modifies this, fixed
      ensures Valid() && Line() == old(Line()) + [c]
    {
      if used < fixed.Length - 1 {
        fixed[used] := c;
        used := used + 1;
        fixed[used] := 0;
      } else {
        if growable == [] {
          growable := fixed[..used];
        }
        growable := growable + [c];
      }
    }

    /** Reads one byte and appends it to the line that began at `start`. */
    method Take(ghost start: nat) returns (more: bool, b: Byte)
      requires Valid() && start <= strm.pos && Line() == strm.data[start..strm.pos]
      modifies this, fixed, strm
      ensures Valid() && start <= strm.pos && Line() == strm.data[start..strm.pos]
      ensures more == (old(strm.pos) < |strm.data|) && strm.pos == old(strm.pos) + if more then 1 else 0
      ensures more ==> b == strm.data[old(strm.pos)]
    {
      ghost var p := strm.pos;
      var bytes := strm.Read(1);
      more, b := bytes != [], 0;
      if more {
        b := bytes[0];
        Append(b);
        assert strm.data[start..p + 1] == strm.data[start..p] + [strm.data[p]];
      }
    }

    /** getline: up to and including CRLF, or what is left; false at the end of the input. */
    method GetLine() returns (ok: bool)
      requires Valid()
      modifies this, fixed, strm
      ensures Valid() && strm.pos == LineEnd(strm.data, old(strm.pos))
      ensures ok <==> old(strm.pos) < |strm.data|
      ensures ok ==> Line() == strm.data[old(strm.pos)..strm.pos]
    {
      used, growable := 0, [];
      var prev: Byte := 0;
      var i := 0;
      ghost var start := strm.pos;
      while true
        invariant Valid() && i == strm.pos - start && start <= strm.pos && Line() == strm.data[start..strm.pos]
        invariant prev == if i == 0 then 0 else strm.data[strm.pos - 1]
        invariant LineEnd(strm.data, start) == LineEnd(strm.data, Resume(strm.pos, prev == CR))
        decreases |strm.data| - strm.pos
      {
        ghost var p := strm.pos;
        var more, b := Take(start);
        if !more {
          return i != 0;
        }
        ScanByte(strm.data, p, prev == CR);
        if prev == CR && b == LF {
          break;
        }
        prev := b;
        i := i + 1;
      }
      ok := true;
    }
  }

  /** read_content_with_length: however the input is cut up, exactly len bytes are passed on. */
  method ReadContentWithLength(strm: Stream, len: nat, bufsiz: nat) returns (ok: bool, content: seq<Byte>)
    requires strm.Valid() && 0 < bufsiz
    modifies strm
    ensures strm.Valid() && old(strm.pos) <= strm.pos
    ensures ok <==> len <= |strm.data| - old(strm.pos)
    ensures ok ==> strm.pos == old(strm.pos) + len && content == strm.data[old(strm.pos)..strm.pos]
  {
    content := [];
    ghost var start := strm.pos;
    while |content| < len
      invariant strm.Valid() && strm.pos == start + |content| && |content| <= len && content == strm.data[start..strm.pos]
    {
      var readLen := len - |content|;
      var b := strm.Read(if readLen < bufsiz then readLen else bufsiz);
      if b == [] {
        return false, content;
      }
      content := content + b;
    }
    ok := true;
  }

  /** The trailer part of read_content_chunked, from the line after the last chunk on. */
  method ReadTrailer(reader: LineReader) returns (ok: bool)
    requires reader.Valid()
    modifies reader, reader.fixed, reader.strm
    ensures reader.Valid()
    ensures var r := DecodeTrailer(reader.strm.data, old(reader.strm.pos), true);
            ok == r.Good? && (ok ==> reader.strm.pos == r.end)
  {
    var strm := reader.strm;
    ghost var start: nat, first := strm.pos, true;
    var more := reader.GetLine();
    if !more {
      return true;
    }
    while CString(reader.Line()) != CRLF
      invariant reader.Valid() && start < strm.pos == LineEnd(strm.data, start) && reader.Line() == strm.data[start..strm.pos]
      invariant DecodeTrailer(strm.data, old(strm.pos), true) == DecodeTrailer(strm.data, start, first)
      decreases |strm.data| - strm.pos
    {
      if |reader.Line()| > HEADER_MAX_LENGTH {
        return false;
      }
      start, first := strm.pos, false;
      more := reader.GetLine();
      if !more {
        return false;
      }
    }
    ok := true;
  }

  /** The data of one chunk and the line end after it. */
  method ReadChunk(reader: LineReader, v: nat, bufsiz: nat) returns (ok: bool, d: seq<Byte>)
    requires reader.Valid() && 0 < bufsiz
    modifies reader, reader.fixed, reader.strm
    ensures reader.Valid() && old(reader.strm.pos) <= reader.strm.pos
    ensures ok == DataAt(reader.strm.data, old(reader.strm.pos), v)
    ensures ok ==> var p := old(reader.strm.pos);
              d == reader.strm.data[p..p + v] && reader.strm.pos == LineEnd(reader.strm.data, p + v) && p + v < reader.strm.pos
  {
    ok, d := ReadContentWithLength(reader.strm, v, bufsiz);
    if ok {
      ok := reader.GetLine();
    }
    if ok {
      ok := CString(reader.Line()) == CRLF;
    }
  }

  lemma DecodeRefused(s: seq<Byte>, p: nat, p1: nat, size: seq<Byte> -> Number)
    requires p <= |s| && LineEnd(s, p) == p1
    requires SizeAt(s, p, size) == Unread || var v := SizeAt(s, p, size).value; v != 0 && !DataAt(s, p1, v)
    ensures Decode(s, p, size) == Bad
  {
  }

  lemma PrependTwice(a: seq<Byte>, b: seq<Byte>, r: Decoded)
    ensures Prepend(a, Prepend(b, r)) == Prepend(a + b, r) && Prepend([], r) == r
  {
    if r.Good? {
      assert a + (b + r.content) == (a + b) + r.content;
    }
  }

  /** The loop of read_content_chunked over a way to read size lines, from a size line already read. */
  method ReadChunks(reader: LineReader, bufsiz: nat, size: seq<Byte> -> Number, ghost p0: nat) returns (ok: bool, content: seq<Byte>)
    requires reader.Valid() && 0 < bufsiz
    requires p0 < reader.strm.pos == LineEnd(reader.strm.data, p0) && reader.Line() == reader.strm.data[p0..reader.strm.pos]
    modifies reader, reader.fixed, reader.strm
    ensures reader.Valid()
    ensures var r := Decode(reader.strm.data, p0, size);
            ok == r.Good? && (ok ==> content == r.content && reader.strm.pos == r.end)
  {
    var strm := reader.strm;
    content := [];
    ghost var p: nat := p0;
    PrependTwice([], [], Decode(strm.data, p0, size));
    while true
      invariant reader.Valid() && p < strm.pos == LineEnd(strm.data, p) && reader.Line() == strm.data[p..strm.pos]
      invariant Decode(strm.data, p0, size) == Prepend(content, Decode(strm.data, p, size))
      decreases |strm.data| - strm.pos
    {
      var last, d;
      ok, last, d, p := ReadNext(reader, bufsiz, size, p);
      if !ok {
        return;
      }
      if last {
        break;
      }
      PrependTwice(content, d, Decode(strm.data, p, size));
      content := content + d;
    }
    ok := ReadTrailer(reader);
    TrailerEmpty(strm.data, LineEnd(strm.data, p), true);
  }

  lemma {:induction false} TrailerEmpty(s: seq<Byte>, p: nat, first: bool)
    requires p <= |s|
    ensures DecodeTrailer(s, p, first).Good? ==> DecodeTrailer(s, p, first).content == []
    decreases |s| - p
  {
    var e := LineEnd(s, p);
    if e > p {
      TrailerEmpty(s, e, false);
    }
  }

  /** One turn of the loop: the size line at p has been read; afterwards the next one has, unless this was the last. */
  method ReadNext(reader: LineReader, bufsiz: nat, size: seq<Byte> -> Number, ghost p: nat)
    returns (ok: bool, last: bool, d: seq<Byte>, ghost p': nat)
    requires reader.Valid() && 0 < bufsiz
    requires p < reader.strm.pos == LineEnd(reader.strm.data, p) && reader.Line() == reader.strm.data[p..reader.strm.pos]
    modifies reader, reader.fixed, reader.strm
    ensures reader.Valid()
    ensures !ok ==> Decode(reader.strm.data, p, size) == Bad
    ensures ok && last ==> p' == p && reader.strm.pos == LineEnd(reader.strm.data, p)
    ensures ok && last ==> Decode(reader.strm.data, p, size) == DecodeTrailer(reader.strm.data, reader.strm.pos, true)
    ensures ok && !last ==>
              && old(reader.strm.pos) <= p' < reader.strm.pos == LineEnd(reader.strm.data, p')
              && reader.Line() == reader.strm.data[p'..reader.strm.pos]
              && Decode(reader.strm.data, p, size) == Prepend(d, Decode(reader.strm.data, p', size))
  {
    ghost var s, p1 := reader.strm.data, reader.strm.pos;
    ok, last, d, p' := false, false, [], p;
    var n := size(reader.Line());
    assert n == SizeAt(s, p, size);
    if n == Unread {
      DecodeRefused(s, p, p1, size);
      return;
    }
    if n.value == ULONG_MAX {
      DecodeOverflow(s, p, size);
      return;
    }
    if n.value == 0 {
      DecodeLast(s, p, p1, size);
      return true, true, [], p;
    }
    ok, d, p' := ReadData(reader, bufsiz, size, p, n.value);
  }

  /** The data of the chunk whose size line at p was read, and the next size line. */
  method ReadData(reader: LineReader, bufsiz: nat, ghost size: seq<Byte> -> Number, ghost p: nat, v: nat)
    returns (ok: bool, d: seq<Byte>, ghost p': nat)
    requires reader.Valid() && 0 < bufsiz && p <= reader.strm.pos == LineEnd(reader.strm.data, p)
    requires SizeAt(reader.strm.data, p, size) == Number(v) && v != 0 && v != ULONG_MAX
    modifies reader, reader.fixed, reader.strm
    ensures reader.Valid()
    ensures !ok ==> Decode(reader.strm.data, p, size) == Bad
    ensures ok ==>
              && old(reader.strm.pos) <= p' < reader.strm.pos == LineEnd(reader.strm.data, p')
              && reader.Line() == reader.strm.data[p'..reader.strm.pos]
              && Decode(reader.strm.data, p, size) == Prepend(d, Decode(reader.strm.data, p', size))
  {
    ghost var s, p1 := reader.strm.data, reader.strm.pos;
    p' := p;
    ok, d := ReadChunk(reader, v, bufsiz);
    if !ok {
      DecodeRefused(s, p, p1, size);
      return;
    }
    DecodeData(s, p, p1, v, size);
    p' := reader.strm.pos;
    ok := reader.GetLine();
    if !ok {
      DecodeRefused(s, p', LineEnd(s, p'), size);
    }
  }

  /** read_content_chunked: passes on exactly what the input decodes to and stops where the decoding ends. */
  method ReadContentChunked(strm: Stream, bufsiz: nat) returns (ok: bool, content: seq<Byte>)
    requires strm.Valid() && 0 < bufsiz
    modifies strm
    ensures strm.Valid()
    ensures !ok ==> forall datas, end :: !BodyText(strm.data, old(strm.pos), datas, end)
    ensures ok ==> exists datas :: BodyText(strm.data, old(strm.pos), datas, strm.pos) && content == Concat(datas)
    ensures var r := Decode(strm.data, old(strm.pos), LineSize);
            ok == r.Good? && (ok ==> content == r.content && strm.pos == r.end)
  {
    DecodeMeaning(strm.data, strm.pos);
    var reader := new LineReader(strm, 16);
    content := [];
    ghost var p := strm.pos;
    ok := reader.GetLine();
    if ok {
      ok, content := ReadChunks(reader, bufsiz, LineSize, p);
    } else {
      DecodeRefused(strm.data, p, LineEnd(strm.data, p), LineSize);
    }
  }

  // ---- the encoder at work ----

  /** What a content provider does with its sink. */
  datatype Op = Write(d: seq<Byte>) | Done

  function Emitted(op: Op): seq<Byte>
  {
    match op
    case Write(d) => if d == [] then [] else Chunk(d)
    case Done => Ending([])
  }

  function EmittedAll(ops: seq<Op>): seq<Byte>
  {
    if ops == [] then [] else Emitted(ops[0]) + EmittedAll(ops[1..])
  }

  /** An empty write and done() both end the body. */
  predicate Ends(op: Op) { op.Done? || op.d == [] }

  lemma EndingParts(out: seq<Byte>)
    ensures out + LAST + CRLF == out + Ending([])
  {
    assert Concat([]) + CRLF == CRLF;
  }

  /** The data sink handed to the content provider. */
  class Sink {
    var out: seq<Byte>
    var offset: nat
    var dataAvailable: bool

    constructor ()
      ensures out == [] && offset == 0 && dataAvailable
    {
      out, offset, dataAvailable := [], 0, true;
    }

    /** data_sink.write and data_sink.done without a compressor, on a stream that takes everything. */
    method Perform(op: Op)
      modifies this
      ensures out == old(out) + Emitted(op) && dataAvailable == !Ends(op)
      ensures offset == old(offset) + if op.Write? then |op.d| else 0
    {
      match op
      case Write(d) =>
        dataAvailable := |d| > 0;
        offset := offset + |d|;
        if d != [] {
          var hex := FromIToHex(|d|);
          out := out + (hex + CRLF + d + CRLF);
        }
      case Done =>
        dataAvailable := false;
        EndingParts(out);
        out := out + LAST;
        out := out + CRLF;
    }
  }

  /** All operations of all calls. */
  function Flatten(calls: seq<seq<Op>>): seq<Op> { if calls == [] then [] else calls[0] + Flatten(calls[1..]) }

  /** The calls of the provider that are made: up to the first one that leaves no more data available. */
  function Made(calls: seq<seq<Op>>): seq<Op>
  {
    if calls == [] then [] else if Finishes(calls[0]) then calls[0] else calls[0] + Made(calls[1..])
  }

  predicate Finishes(ops: seq<Op>) { ops != [] && Ends(ops[|ops| - 1]) }

  predicate OnlyLastEnds(ops: seq<Op>) { forall i :: 0 <= i < |ops| - 1 ==> !Ends(ops[i]) }

  /** If nothing but the very last operation ends the body, all calls are made. */
  lemma {:induction false} AllMade(calls: seq<seq<Op>>)
    requires OnlyLastEnds(Flatten(calls))
    ensures Made(calls) == Flatten(calls)
    decreases calls
  {
    if calls != [] {
      var rest := Flatten(calls[1..]);
      assert forall i :: 0 <= i < |rest| ==> rest[i] == Flatten(calls)[|calls[0]| + i];
      assert OnlyLastEnds(rest);
      if Finishes(calls[0]) {
        assert Flatten(calls)[|calls[0]| - 1] == calls[0][|calls[0]| - 1];
      } else {
        AllMade(calls[1..]);
      }
    }
  }

  lemma {:induction false} EmittedConcat(a: seq<Op>, b: seq<Op>)
    ensures EmittedAll(a + b) == EmittedAll(a) + EmittedAll(b)
    decreases a
  {
    if a == [] {
      assert a + b == b;
    } else {
      assert (a + b)[1..] == a[1..] + b;
      EmittedConcat(a[1..], b);
    }
  }

  /** One call of the content provider: a sequence of operations on the sink. */
  method Provide(sink: Sink, ops: seq<Op>)
    modifies sink
    ensures sink.out == old(sink.out) + EmittedAll(ops)
    ensures sink.dataAvailable == if ops == [] then old(sink.dataAvailable) else !Finishes(ops)
    decreases ops
  {
    if ops != [] {
      Associative(sink.out, Emitted(ops[0]), EmittedAll(ops[1..]));
      sink.Perform(ops[0]);
      Provide(sink, ops[1..]);
    }
  }

  lemma Associative<T>(a: seq<T>, b: seq<T>, c: seq<T>)
    ensures a + (b + c) == a + b + c
  {
  }

  /** What is emitted from call i on. */
  lemma MadeNext(calls: seq<seq<Op>>, i: nat)
    requires i < |calls|
    ensures Finishes(calls[i]) ==> EmittedAll(Made(calls[i..])) == EmittedAll(calls[i])
    ensures !Finishes(calls[i]) ==> EmittedAll(Made(calls[i..])) == EmittedAll(calls[i]) + EmittedAll(Made(calls[i + 1..]))
  {
    assert calls[i..][0] == calls[i] && calls[i..][1..] == calls[i + 1..];
    EmittedConcat(calls[i], Made(calls[i + 1..]));
  }

  /** write_content_chunked: calls the provider until no more data is available; no more calls is a shutdown. */
  method WriteContentChunked(calls: seq<seq<Op>>) returns (out: seq<Byte>)
    ensures out == EmittedAll(Made(calls))
  {
    var sink := new Sink();
    var i := 0;
    assert calls[0..] == calls;
    while sink.dataAvailable && i < |calls|
      invariant 0 <= i <= |calls|
      invariant sink.dataAvailable ==> EmittedAll(Made(calls)) == sink.out + EmittedAll(Made(calls[i..]))
      invariant !sink.dataAvailable ==> EmittedAll(Made(calls)) == sink.out
    {
      MadeNext(calls, i);
      Associative(sink.out, EmittedAll(calls[i]), EmittedAll(Made(calls[i + 1..])));
      Provide(sink, calls[i]);
      i := i + 1;
    }
    assert calls[|calls|..] == [];
    out := sink.out;
  }

  function Writes(writes: seq<seq<Byte>>): seq<Op>
  {
    if writes == [] then [Done] else [Write(writes[0])] + Writes(writes[1..])
  }

  /** Non-empty writes ended by done() emit the encoding. */
  lemma {:induction false} EmitsEncoding(writes: seq<seq<Byte>>)
    requires forall i :: 0 <= i < |writes| ==> writes[i] != []
    ensures EmittedAll(Writes(writes)) == Encode(writes, []) && OnlyLastEnds(Writes(writes))
    decreases writes
  {
    if writes == [] {
      assert EmittedAll([Done]) == Emitted(Done) + EmittedAll([]);
    } else {
      assert Writes(writes)[1..] == Writes(writes[1..]);
      EmitsEncoding(writes[1..]);
      forall i | 0 <= i < |Writes(writes)| - 1
        ensures !Ends(Writes(writes)[i])
      {
        assert i > 0 ==> Writes(writes)[i] == Writes(writes[1..])[i - 1];
      }
    }
  }

  /**
   * From provider to receiver: non-empty writes ended by done(), spread over any number of provider calls and read in
   * pieces of any size, arrive as their concatenation, and what follows on the connection stays unread.
   */
  method Transfer(calls: seq<seq<Op>>, writes: seq<seq<Byte>>, after: seq<Byte>, bufsiz: nat)
    returns (out: seq<Byte>, ok: bool, content: seq<Byte>, strm: Stream)
    requires Flatten(calls) == Writes(writes) && (forall i :: 0 <= i < |writes| ==> writes[i] != []) && Decodable(writes) && 0 < bufsiz
    ensures out == Encode(writes, [])
    ensures ok && content == Concat(writes)
    ensures strm.data == out + after && strm.pos == |out|
  {
    EmitsEncoding(writes);
    AllMade(calls);
    RoundTrip(writes, [], [], after);
    out := WriteContentChunked(calls);
    assert [] + out + after == out + after && [] + out == out;
    strm := new Stream(out + after);
    ok, content := ReadContentChunked(strm, bufsiz);
  }
}

/** Base64 (RFC 4648, section 4) as the serializer uses it for binary values. */
module Base64 {
  import opened Texts

  type Byte = x: nat | x < 256

  /** A position of the encoded text: one of the 64 letters, or the pad. */
  type Symbol = n: nat | n <= 64

  const PAD: Symbol := 64

  /** The alphabet of RFC 4648, table 1. */
  function SymbolChar(n: Symbol): char {
    if n < 26 then (n + 'A' as int) as char
    else if n < 52 then (n - 26 + 'a' as int) as char
    else if n < 62 then (n - 52 + '0' as int) as char
    else if n == 62 then '+' else if n == 63 then '/' else '='
  }

  function SymbolOf(c: char): Option<Symbol> {
    if 'A' <= c <= 'Z' then Some(c as int - 'A' as int)
    else if 'a' <= c <= 'z' then Some(c as int - 'a' as int + 26)
    else if '0' <= c <= '9' then Some(c as int - '0' as int + 52)
    else if c == '+' then Some(62) else if c == '/' then Some(63) else if c == '=' then Some(PAD) else None
  }

  const CAPITALS := "ABCDEFGHIJKLMNOPQRSTUVWXYZ"
  const SMALL := "abcdefghijklmnopqrstuvwxyz"

  /** The whole table: capitals, small letters, digits, plus and slash; the equals sign pads. */
  lemma {:induction false} TableIs(n: nat)
    ensures n < 26 ==> SymbolChar(n) == CAPITALS[n] && SymbolOf(CAPITALS[n]) == Some(n)
    ensures n < 26 ==> SymbolChar(n + 26) == SMALL[n] && SymbolOf(SMALL[n]) == Some(n + 26)
    ensures n < 10 ==> SymbolChar(n + 52) == DIGITS[n] && SymbolOf(DIGITS[n]) == Some(n + 52)
    ensures SymbolChar(62) == '+' && SymbolChar(63) == '/' && SymbolChar(PAD) == '='
  {
  }

  function Chars(s: seq<Symbol>): (t: string)
    ensures |t| == |s|
  {
    seq(|s|, i requires 0 <= i < |s| => SymbolChar(s[i]))
  }

  function Symbols(t: string): Option<seq<Symbol>> {
    if forall i :: 0 <= i < |t| ==> SymbolOf(t[i]).Some? then
      Some(seq(|t|, i requires 0 <= i < |t| => SymbolOf(t[i]).value))
    else None
  }

  lemma {:induction false} SymbolsOfChars(s: seq<Symbol>)
    ensures Symbols(Chars(s)) == Some(s)
  {
    forall i | 0 <= i < |s|
      ensures SymbolOf(Chars(s)[i]) == Some(s[i])
    {
    }
    assert Symbols(Chars(s)).value == s;
  }

  // The four letters of a block of three bytes, and the three bytes of a block of four letters.
  function Letter0(x: Byte): Symbol { x / 4 }
  function Letter1(x: Byte, y: Byte): Symbol { x % 4 * 16 + y / 16 }
  function Letter2(y: Byte, z: Byte): Symbol { y % 16 * 4 + z / 64 }
  function Letter3(z: Byte): Symbol { z % 64 }
  function LastLetter(x: Byte): Symbol { x % 4 * 16 }
  function Byte0(s: Symbol, t: Symbol): Byte { (s % 64 as int) * 4 + t % 64 / 16 }
  function Byte1(t: Symbol, u: Symbol): Byte { (t % 16 as int) * 16 + u % 64 / 4 }
  function Byte2(u: Symbol, v: Symbol): Byte { (u % 4 as int) * 64 + v % 64 }

  lemma {:induction false} BlockRoundTrip(x: Byte, y: Byte, z: Byte)
    ensures Letter0(x) != PAD && Letter1(x, y) != PAD && Letter2(y, z) != PAD && Letter3(z) != PAD
    ensures Byte0(Letter0(x), Letter1(x, y)) == x
    ensures Byte1(Letter1(x, y), Letter2(y, z)) == y
    ensures Byte2(Letter2(y, z), Letter3(z)) == z
  {
    hide Letter0, Letter1, Letter2, Letter3, Byte0, Byte1, Byte2;
    FirstByte(x, y);
    MiddleByte(x, y, z);
    ThirdByte(y, z);
  }

  lemma {:induction false} FirstByte(x: Byte, y: Byte)
    ensures Letter0(x) != PAD && Letter1(x, y) != PAD && Byte0(Letter0(x), Letter1(x, y)) == x
  {
    Recombine(x % 4, 4, y / 16, 16);
  }

  lemma {:induction false} MiddleByte(x: Byte, y: Byte, z: Byte)
    ensures Byte1(Letter1(x, y), Letter2(y, z)) == y
  {
    UpperBits(x, y);
    LowerBits(y, z);
    assert Byte1(Letter1(x, y), Letter2(y, z)) == y / 16 * 16 + y % 16;
  }

  lemma {:induction false} UpperBits(x: Byte, y: Byte)
    ensures Letter1(x, y) % 16 == y / 16
  {
    Recombine(x % 4, 4, y / 16, 16);
  }

  lemma {:induction false} LowerBits(y: Byte, z: Byte)
    ensures Letter2(y, z) % 64 / 4 == y % 16
  {
    Recombine(y % 16, 16, z / 64, 4);
  }

  lemma {:induction false} ThirdByte(y: Byte, z: Byte)
    ensures Letter2(y, z) != PAD && Letter3(z) != PAD && Byte2(Letter2(y, z), Letter3(z)) == z
  {
    Recombine(y % 16, 16, z / 64, 4);
  }

  lemma {:induction false} LastByte(x: Byte)
    ensures Letter0(x) != PAD && LastLetter(x) != PAD
    ensures Byte0(Letter0(x), LastLetter(x)) == x
  {
    Recombine(x % 4, 4, 0, 16);
  }

  /** Two digits written side by side, the low one below `base`, can be told apart again. */
  lemma {:induction false} Recombine(high: nat, bound: nat, low: nat, base: nat)
    requires high < bound && low < base && base > 0
    requires (bound == 4 && base == 16) || (bound == 16 && base == 4)
    ensures (high * base + low) / base == high && (high * base + low) % base == low
    ensures high * base + low < 64
  {
  }

  /** Four letters carry the bits of three bytes in order. */
  lemma {:induction false} SameBits(x: Byte, y: Byte, z: Byte)
    ensures Letter0(x) * 0x40000 + Letter1(x, y) * 0x1000 + Letter2(y, z) * 0x40 + Letter3(z) ==
      x * 0x10000 + y * 0x100 + z
    ensures LastLetter(x) == Letter1(x, 0)
  {
  }

  /** Three bytes are four letters; one or two trailing bytes are padded. */
  function Group(b: seq<Byte>): (s: seq<Symbol>)
    ensures |s| == (|b| + 2) / 3 * 4
  {
    if |b| == 0 then []
    else if |b| == 1 then [Letter0(b[0]), LastLetter(b[0]), PAD, PAD]
    else if |b| == 2 then [Letter0(b[0]), Letter1(b[0], b[1]), Letter2(b[1], 0), PAD]
    else [Letter0(b[0]), Letter1(b[0], b[1]), Letter2(b[1], b[2]), Letter3(b[2])] + Group(b[3..])
  }

  function Ungroup(s: seq<Symbol>): Option<seq<Byte>> {
    if s == [] then Some([])
    else if |s| < 4 || s[0] == PAD || s[1] == PAD then None
    else if |s| == 4 && s[2] == PAD && s[3] == PAD then Some([Byte0(s[0], s[1])])
    else if s[2] == PAD then None
    else if |s| == 4 && s[3] == PAD then Some([Byte0(s[0], s[1]), Byte1(s[1], s[2])])
    else if s[3] == PAD then None
    else
      match Ungroup(s[4..])
      case None => None
      case Some(rest) => Some([Byte0(s[0], s[1]), Byte1(s[1], s[2]), Byte2(s[2], s[3])] + rest)
  }

  lemma {:induction false} FullBlock(b: seq<Byte>)
    requires |b| >= 3
    requires Ungroup(Group(b[3..])) == Some(b[3..])
    ensures Ungroup(Group(b)) == Some(b)
  {
    hide Letter0, Letter1, Letter2, Letter3, Byte0, Byte1, Byte2;
    var x, y, z := b[0], b[1], b[2];
    BlockRoundTrip(x, y, z);
    var s := Group(b);
    assert s[0] == Letter0(x) && s[1] == Letter1(x, y) && s[2] == Letter2(y, z) && s[3] == Letter3(z);
    assert s[4..] == Group(b[3..]);
    assert Ungroup(s) == Some([Byte0(s[0], s[1]), Byte1(s[1], s[2]), Byte2(s[2], s[3])] + b[3..]);
    assert b == [x, y, z] + b[3..];
  }

  lemma {:induction false} OnePaddedBlock(x: Byte)
    ensures Ungroup(Group([x])) == Some([x])
  {
    LastByte(x);
    var s := Group([x]);
    assert s == [Letter0(x), LastLetter(x), PAD, PAD];
    assert Ungroup(s) == Some([Byte0(s[0], s[1])]);
  }

  lemma {:induction false} TwoPaddedBlock(x: Byte, y: Byte)
    ensures Ungroup(Group([x, y])) == Some([x, y])
  {
    BlockRoundTrip(x, y, 0);
    var s := Group([x, y]);
    assert s[0] == Letter0(x) && s[1] == Letter1(x, y) && s[2] == Letter2(y, 0) && s[3] == PAD && |s| == 4;
    assert Ungroup(s) == Some([Byte0(s[0], s[1]), Byte1(s[1], s[2])]);
  }

  lemma {:induction false} UngroupGroup(b: seq<Byte>)
    ensures Ungroup(Group(b)) == Some(b)
  {
    if |b| >= 3 {
      UngroupGroup(b[3..]);
      FullBlock(b);
    } else if |b| == 2 {
      TwoPaddedBlock(b[0], b[1]);
      assert b == [b[0], b[1]];
    } else if |b| == 1 {
      OnePaddedBlock(b[0]);
      assert b == [b[0]];
    }
  }

  function Encode(b: seq<Byte>): string {
    Chars(Group(b))
  }

  /** Decoding a well-formed text: whole blocks, pads at the end only. */
  function Decode(t: string): Option<seq<Byte>> {
    match Symbols(t)
    case None => None
    case Some(s) => Ungroup(s)
  }

  lemma {:induction false} RoundTrip(b: seq<Byte>)
    ensures Decode(Encode(b)) == Some(b)
  {
    SymbolsOfChars(Group(b));
    UngroupGroup(b);
  }

  // ---------- the decoders of the platform ----------

  predicate IsBlank(c: char) {
    c == ' ' || c == '\t' || c == '\n' || c == '\r' || c == 12 as char
  }

  function WithoutBlanks(t: string): string {
    if t == "" then ""
    else if IsBlank(t[0]) then WithoutBlanks(t[1..])
    else [t[0]] + WithoutBlanks(t[1..])
  }

  /** The symbols without one or two final pads. */
  function Trim(s: seq<Symbol>): seq<Symbol> {
    var n := |s|;
    if n >= 2 && s[n - 1] == PAD && s[n - 2] == PAD then s[..n - 2]
    else if n >= 1 && s[n - 1] == PAD then s[..n - 1]
    else s
  }

  /** The bytes of whole blocks and of a rest of two or three letters. */
  function LettersToBytes(s: seq<Symbol>): seq<Byte> {
    if |s| >= 4 then [Byte0(s[0], s[1]), Byte1(s[1], s[2]), Byte2(s[2], s[3])] + LettersToBytes(s[4..])
    else if |s| == 3 then [Byte0(s[0], s[1]), Byte1(s[1], s[2])]
    else if |s| == 2 then [Byte0(s[0], s[1])]
    else []
  }

  /** What `atob` accepts (the forgiving-base64 decode of the WHATWG Infra standard): blanks anywhere, and missing
      pads; `None` is the error it throws. */
  function Forgiving(t: string): Option<seq<Byte>> {
    match Symbols(WithoutBlanks(t))
    case None => None
    case Some(s) =>
      var letters := if |s| % 4 == 0 then Trim(s) else s;
      if |letters| % 4 == 1 || PAD in letters then None else Some(LettersToBytes(letters))
  }

  lemma {:induction false} SymbolsAreNotBlank(t: string)
    requires Symbols(t).Some?
    ensures WithoutBlanks(t) == t
  {
    if t == "" {
    } else {
      assert SymbolOf(t[0]).Some?;
      forall i | 0 <= i < |t[1..]|
        ensures SymbolOf(t[1..][i]).Some?
      {
        assert t[1..][i] == t[i + 1];
      }
      SymbolsAreNotBlank(t[1..]);
      assert t == [t[0]] + t[1..];
    }
  }

  lemma {:induction false} LastBlockIsTrimmed(s: seq<Symbol>)
    requires Ungroup(s).Some? && |s| <= 4
    ensures |s| % 4 == 0 && |Trim(s)| % 4 != 1 && PAD !in Trim(s)
    ensures LettersToBytes(Trim(s)) == Ungroup(s).value
  {
    hide Byte0, Byte1, Byte2;
    if s == [] {
    } else {
      assert s == [s[0], s[1], s[2], s[3]];
      assert s[4..] == [];
    }
  }

  lemma {:induction false} TrimLater(block: seq<Symbol>, rest: seq<Symbol>)
    requires |rest| >= 2
    ensures Trim(block + rest) == block + Trim(rest)
  {
  }

  lemma {:induction false} BlockToBytes(block: seq<Symbol>, rest: seq<Symbol>)
    requires |block| == 4
    ensures LettersToBytes(block + rest) ==
      [Byte0(block[0], block[1]), Byte1(block[1], block[2]), Byte2(block[2], block[3])] + LettersToBytes(rest)
  {
    hide Byte0, Byte1, Byte2;
    assert (block + rest)[4..] == rest;
  }

  lemma {:induction false} UngroupBlock(s: seq<Symbol>)
    requires Ungroup(s).Some? && |s| > 4
    ensures PAD !in s[..4] && Ungroup(s[4..]).Some?
    ensures Ungroup(s).value == [Byte0(s[0], s[1]), Byte1(s[1], s[2]), Byte2(s[2], s[3])] + Ungroup(s[4..]).value
  {
    hide Byte0, Byte1, Byte2;
    assert s[..4] == [s[0], s[1], s[2], s[3]];
  }

  lemma {:induction false} UngroupIsTrimmed(s: seq<Symbol>)
    requires Ungroup(s).Some?
    ensures |s| % 4 == 0 && |Trim(s)| % 4 != 1 && PAD !in Trim(s)
    ensures LettersToBytes(Trim(s)) == Ungroup(s).value
  {
    hide Byte0, Byte1, Byte2, Ungroup, LettersToBytes, Trim;
    if |s| <= 4 {
      LastBlockIsTrimmed(s);
    } else {
      var block, rest := s[..4], s[4..];
      assert s == block + rest;
      UngroupBlock(s);
      UngroupIsTrimmed(rest);
      assert |rest| >= 4;
      TrimLater(block, rest);
      BlockToBytes(block, Trim(rest));
    }
  }

  /** On well-formed texts `atob` agrees ... */
  lemma {:induction false} ForgivingAgrees(t: string)
    requires Decode(t).Some?
    ensures Forgiving(t) == Decode(t)
  {
    SymbolsAreNotBlank(t);
    UngroupIsTrimmed(Symbols(t).value);
  }

  /** ... and it reads others too: two letters without their pads are one byte. */
  lemma {:induction false} ForgivingReadsMore()
    ensures Decode("QQ") == None && Forgiving("QQ") == Some([65])
  {
    var t := "QQ";
    var letters: seq<Symbol> := [16, 16];
    SymbolsOfChars(letters);
    assert Chars(letters) == t;
    SymbolsAreNotBlank(t);
    assert LettersToBytes(letters) == [65];
  }

  /** The runtime's own decoder: it never fails, and reads well-formed texts as they are meant. */
  ghost predicate ReadsWellFormed(buffer: string -> seq<Byte>) {
    forall t :: Decode(t).Some? ==> buffer(t) == Decode(t).value
  }

  /** A "binary string": one char per byte, as `btoa` takes and `atob` gives. */
  predicate IsBinary(s: string) { forall i :: 0 <= i < |s| ==> s[i] as int < 256 }

  function Codes(s: string): (b: seq<Byte>)
    requires IsBinary(s)
    ensures |b| == |s| && forall i :: 0 <= i < |s| ==> b[i] == s[i] as int
  {
    seq(|s|, i requires 0 <= i < |s| => s[i] as int)
  }

  function BinaryString(b: seq<Byte>): (s: string)
    ensures |s| == |b| && IsBinary(s) && Codes(s) == b
  {
    seq(|b|, i requires 0 <= i < |b| => b[i] as char)
  }

  function Btoa(binary: string): string
    requires IsBinary(binary)
  {
    Encode(Codes(binary))
  }

  function Atob(text: string): Option<string> {
    match Forgiving(text)
    case None => None
    case Some(b) => Some(BinaryString(b))
  }

  /** `bytesToBase64`: the runtime's Buffer where there is one, else a binary string handed to `btoa`. */
  method BytesToBase64(bytes: seq<Byte>, hasBuffer: bool) returns (text: string)
    ensures text == Encode(bytes)
  {
    if hasBuffer {
      return Encode(bytes);
    }
    var binary := "";
    for i := 0 to |bytes|
      invariant |binary| == i
      invariant forall j :: 0 <= j < i ==> binary[j] as int == bytes[j]
    {
      binary := binary + [bytes[i] as char];
    }
    assert Codes(binary) == bytes;
    text := Btoa(binary);
  }

  /** `base64ToBytes`, with the runtime's Buffer where there is one: both ways of decoding agree on every
      well-formed text, and only `atob` can fail. */
  method Base64ToBytes(text: string, buffer: Option<string -> seq<Byte>>) returns (bytes: Option<seq<Byte>>)
    requires buffer.Some? ==> ReadsWellFormed(buffer.value)
    ensures bytes == if buffer.Some? then Some(buffer.value(text)) else Forgiving(text)
    ensures Decode(text).Some? ==> bytes == Decode(text)
  {
    hide Decode, Forgiving;
    if Decode(text).Some? { ForgivingAgrees(text); }
    if buffer.Some? {
      return Some(buffer.value(text));
    }
    var binary := Atob(text);
    if binary == None {
      return None;
    }
    var decoded := new Byte[|binary.value|](_ => 0);
    for i := 0 to |binary.value|
      invariant forall j :: 0 <= j < i ==> decoded[j] == binary.value[j] as int
    {
      decoded[i] := binary.value[i] as int;
    }
    bytes := Some(decoded[..]);
    assert decoded[..] == Codes(binary.value);
  }

  // ---------- what else `atob` accepts, and what it refuses ----------

  lemma {:induction false} BlanksConcat(a: string, b: string)
    ensures WithoutBlanks(a + b) == WithoutBlanks(a) + WithoutBlanks(b)
  {
    if a == "" {
      assert a + b == b;
    } else {
      BlanksConcat(a[1..], b);
      assert (a + b)[0] == a[0] && (a + b)[1..] == a[1..] + b;
    }
  }

  /** Blank, tab, line feed, form feed and carriage return are ignored wherever they stand. */
  lemma {:induction false} BlankIsIgnored(a: string, c: char, b: string)
    requires c as int in {32, 9, 10, 12, 13}
    ensures Forgiving(a + [c] + b) == Forgiving(a + b)
  {
    BlanksConcat(a + [c], b);
    BlanksConcat(a, [c]);
    BlanksConcat(a, b);
    assert [c][1..] == "" && WithoutBlanks([c]) == "";
    assert WithoutBlanks(a) + "" == WithoutBlanks(a);
  }

  /** The pads may be left out. */
  lemma {:induction false} PadsMayBeMissing(b: seq<Byte>)
    ensures var pads := if |b| % 3 == 0 then 0 else 3 - |b| % 3;
      |Encode(b)| >= pads && Forgiving(Encode(b)[..|Encode(b)| - pads]) == Some(b)
  {
    hide Group, LettersToBytes, SymbolChar, SymbolOf, Ungroup;
    var s := Group(b);
    RoundTrip(b);
    ForgivingAgrees(Encode(b));
    SymbolsOfChars(s);
    SymbolsAreNotBlank(Encode(b));
    PadsOf(b);
    var pads := if |b| % 3 == 0 then 0 else 3 - |b| % 3;
    var letters := Trim(s);
    assert letters == s[..|s| - pads];
    var t := Encode(b)[..|Encode(b)| - pads];
    assert t == Chars(letters);
    SymbolsOfChars(letters);
    SymbolsAreNotBlank(t);
    assert PAD !in letters;
    assert Trim(letters) == letters;
  }

  lemma {:induction false} PadsOf(b: seq<Byte>)
    ensures var pads := if |b| % 3 == 0 then 0 else 3 - |b| % 3;
      |Group(b)| >= pads && Trim(Group(b)) == Group(b)[..|Group(b)| - pads]
  {
    hide Group, Trim;
    if |b| < 3 {
      PadsOfLast(b);
    } else {
      var block, rest := Group(b)[..4], Group(b[3..]);
      PadsOf(b[3..]);
      FirstBlock(b);
      if rest == [] {
        assert block + rest == block;
      } else {
        TrimLater(block, rest);
      }
    }
  }

  lemma {:induction false} PadsOfLast(b: seq<Byte>)
    requires |b| < 3
    ensures var pads := if |b| == 0 then 0 else 3 - |b|;
      |Group(b)| >= pads && Trim(Group(b)) == Group(b)[..|Group(b)| - pads]
  {
    hide Letter0, Letter1, Letter2, LastLetter;
    LettersAreNoPads(b);
  }

  lemma {:induction false} FirstBlock(b: seq<Byte>)
    requires |b| >= 3
    ensures var block, rest := Group(b)[..4], Group(b[3..]);
      && Group(b) == block + rest && PAD !in block
      && (rest == [] ==> Trim(block) == block) && (rest != [] ==> |rest| >= 4)
  {
    hide Letter0, Letter1, Letter2, Letter3, LastLetter;
    LettersAreNoPads(b);
    var block := [Letter0(b[0]), Letter1(b[0], b[1]), Letter2(b[1], b[2]), Letter3(b[2])];
    assert Group(b)[..4] == block;
  }

  lemma {:induction false} LettersAreNoPads(b: seq<Byte>)
    ensures |b| >= 1 ==> Letter0(b[0]) != PAD && LastLetter(b[0]) != PAD
    ensures |b| >= 2 ==> Letter1(b[0], b[1]) != PAD && Letter2(b[1], 0) != PAD
    ensures |b| >= 3 ==> Letter2(b[1], b[2]) != PAD && Letter3(b[2]) != PAD
  {
  }

  /** A text of letters and pads is refused if one character stands behind its blocks of four, or if it has pads
      and does not consist of such blocks. */
  lemma {:induction false} OddLengthsFail(t: string)
    requires Symbols(t).Some?
    ensures |t| % 4 == 1 ==> Forgiving(t) == None
    ensures |t| % 4 != 0 && '=' in t ==> Forgiving(t) == None
  {
    SymbolsAreNotBlank(t);
    if '=' in t {
      var i :| 0 <= i < |t| && t[i] == '=';
      assert Symbols(t).value[i] == PAD;
    }
  }
}

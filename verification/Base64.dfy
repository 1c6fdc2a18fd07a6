/** The base64 codec of src/base64.c. Shifts and masks of values below 2^24
    are written as multiplication, division and remainder. */
module Base64 {
  import opened Options
  import opened Words

  /** b64_rev: -2 for the pad character, -1 for anything else unknown. */
  function Rev(c: char): int {
    if 'A' <= c <= 'Z' then c as int - 'A' as int
    else if 'a' <= c <= 'z' then c as int - 'a' as int + 26
    else if '0' <= c <= '9' then c as int - '0' as int + 52
    else if c == '+' then 62
    else if c == '/' then 63
    else if c == '=' then -2
    else -1
  }

  /** b64_tab[i]: the table lists A-Z, a-z, 0-9, + and / in that order. */
  function Sym(i: int): char
    requires 0 <= i < 64
  {
    if i < 26 then ('A' as int + i) as char
    else if i < 52 then ('a' as int + i - 26) as char
    else if i < 62 then ('0' as int + i - 52) as char
    else if i == 62 then '+' else '/'
  }

  lemma RevOfSym(i: int)
    requires 0 <= i < 64
    ensures Rev(Sym(i)) == i
  {
  }

  lemma RevInjective(c: char, d: char)
    requires Rev(c) == Rev(d) != -1
    ensures c == d
  {
  }

  // ---------------------------------------------------------------- one group

  /** The 24 bits of one to three bytes, absent bytes being zero. */
  function Pack(g: seq<byte>): (v: int)
    requires 1 <= |g| <= 3
    ensures 0 <= v < 0x100_0000
  {
    var x: int, y: int, z: int := g[0], if |g| > 1 then g[1] else 0, if |g| > 2 then g[2] else 0;
    x * 65536 + y * 256 + z
  }

  /** Four characters for 24 bits, the last ones replaced by pads. */
  function Symbols(v: int, n: int): (s: string)
    requires 0 <= v
    ensures |s| == 4
  {
    [Sym(v / 262144 % 64), Sym(v / 4096 % 64),
     if n > 1 then Sym(v / 64 % 64) else '=', if n > 2 then Sym(v % 64) else '=']
  }

  /** One to three bytes as four characters. */
  function EncodeGroup(g: seq<byte>): (s: string)
    requires 1 <= |g| <= 3
    ensures |s| == 4
  {
    Symbols(Pack(g), |g|)
  }

  function ZeroIfNegative(x: int): int {
    if x < 0 then 0 else x
  }

  function Bits(a: int, b: int, c: int, d: int): int {
    a * 262144 + b * 4096 + c * 64 + d
  }

  /** The bytes kept of 24 bits. */
  function BytesOf(v: int, second: bool, third: bool): seq<byte> {
    [v / 65536 % 256] + (if second then [v / 256 % 256] else []) + (if third then [v % 256] else [])
  }

  /** Four characters as bytes. Only the first two must be in the alphabet: the
      source's further test, c<-2 || d<-2, never holds. */
  function DecodeGroup(q: string): (r: Option<seq<byte>>)
    requires |q| == 4
  {
    var a, b, c, d := Rev(q[0]), Rev(q[1]), Rev(q[2]), Rev(q[3]);
    if a < 0 || b < 0 || c < -2 || d < -2 then None
    else Some(BytesOf(Bits(a, b, ZeroIfNegative(c), ZeroIfNegative(d)), c != -2, d != -2))
  }

  // Quotient and remainder of a number given in the form q * k + r.

  lemma Div64(q: int, r: int)
    requires 0 <= r < 64
    ensures (q * 64 + r) / 64 == q && (q * 64 + r) % 64 == r
  {
  }

  lemma Div256(q: int, r: int)
    requires 0 <= r < 256
    ensures (q * 256 + r) / 256 == q && (q * 256 + r) % 256 == r
  {
  }

  lemma Div4096(q: int, r: int)
    requires 0 <= r < 4096
    ensures (q * 4096 + r) / 4096 == q
  {
  }

  lemma Div65536(q: int, r: int)
    requires 0 <= r < 65536
    ensures (q * 65536 + r) / 65536 == q
  {
  }

  lemma Div262144(q: int, r: int)
    requires 0 <= r < 262144
    ensures (q * 262144 + r) / 262144 == q
  {
  }

  lemma SextetsOf(a: int, b: int, c: int, d: int)
    requires 0 <= a < 64 && 0 <= b < 64 && 0 <= c < 64 && 0 <= d < 64
    ensures var v := Bits(a, b, c, d);
      v / 262144 % 64 == a && v / 4096 % 64 == b && v / 64 % 64 == c && v % 64 == d
  {
    Div64(a * 4096 + b * 64 + c, d);
    Div64(a * 64 + b, c);
    Div4096(a * 64 + b, c * 64 + d);
    Div64(a, b);
    Div262144(a, b * 4096 + c * 64 + d);
  }

  /** Every 24-bit value is put together from four sextets. */
  lemma SextetsRecombine(v: int)
    requires 0 <= v < 0x100_0000
    ensures v == Bits(v / 262144 % 64, v / 4096 % 64, v / 64 % 64, v % 64)
  {
    var w := v / 64;
    var u := w / 64;
    SextetsOf(u / 64, u % 64, w % 64, v % 64);
  }

  lemma BytesOfPacked(x: int, y: int, z: int)
    requires 0 <= x < 256 && 0 <= y < 256 && 0 <= z < 256
    ensures var v := x * 65536 + y * 256 + z;
      v / 65536 % 256 == x && v / 256 % 256 == y && v % 256 == z
  {
    Div256(x * 256 + y, z);
    Div256(x, y);
    Div65536(x, y * 256 + z);
  }

  lemma BytesRecombine(v: int)
    requires 0 <= v < 0x100_0000
    ensures v == v / 65536 % 256 * 65536 + v / 256 % 256 * 256 + v % 256
  {
    var w := v / 256;
    BytesOfPacked(w / 256, w % 256, v % 256);
  }

  lemma SymbolsRev(v: int, n: int)
    requires 0 <= v
    ensures var q := Symbols(v, n);
      && Rev(q[0]) == v / 262144 % 64 && Rev(q[1]) == v / 4096 % 64
      && Rev(q[2]) == (if n > 1 then v / 64 % 64 else -2) && Rev(q[3]) == if n > 2 then v % 64 else -2
  {
    RevOfSym(v / 262144 % 64);
    RevOfSym(v / 4096 % 64);
    RevOfSym(v / 64 % 64);
    RevOfSym(v % 64);
  }

  lemma PackBytes(g: seq<byte>)
    requires 1 <= |g| <= 3
    ensures BytesOf(Pack(g), |g| > 1, |g| > 2) == g
  {
    BytesOfPacked(g[0], if |g| > 1 then g[1] else 0, if |g| > 2 then g[2] else 0);
  }

  /** Absent bytes leave zero bits in the sextets they share. */
  lemma PackTail(g: seq<byte>)
    requires 1 <= |g| <= 2
    ensures Pack(g) % 64 == 0 && Pack(g) / 64 % 64 % 4 == 0
    ensures |g| == 1 ==> Pack(g) / 64 % 64 == 0 && Pack(g) / 4096 % 64 % 16 == 0
  {
    var x: int, y: int := g[0], if |g| > 1 then g[1] else 0;
    assert Pack(g) == Bits(x / 4, x % 4 * 16 + y / 16, y % 16 * 4, 0);
    SextetsOf(x / 4, x % 4 * 16 + y / 16, y % 16 * 4, 0);
    hide Pack, Bits;
  }

  lemma GroupRoundTrip(g: seq<byte>)
    requires 1 <= |g| <= 3
    ensures DecodeGroup(EncodeGroup(g)) == Some(g)
  {
    SymbolsRev(Pack(g), |g|);
    SextetsRecombine(Pack(g));
    PackBytes(g);
    if |g| < 3 {
      PackTail(g);
    }
  }

  /** A group the encoder can produce (section 3.5 of RFC 4648): pad bits are
      zero, and only the last group is padded. */
  predicate CanonicalGroup(q: string, last: bool)
    requires |q| == 4
  {
    && Rev(q[0]) >= 0 && Rev(q[1]) >= 0
    && (|| (Rev(q[2]) >= 0 && Rev(q[3]) >= 0)
        || (last && Rev(q[2]) >= 0 && q[3] == '=' && Rev(q[2]) % 4 == 0)
        || (last && q[2] == '=' && q[3] == '=' && Rev(q[1]) % 16 == 0))
  }

  lemma EncodedGroupIsCanonical(g: seq<byte>)
    requires 1 <= |g| <= 3
    ensures CanonicalGroup(EncodeGroup(g), true)
    ensures |g| == 3 ==> CanonicalGroup(EncodeGroup(g), false)
    ensures forall c :: c in EncodeGroup(g) ==> Rev(c) != -1
  {
    SymbolsRev(Pack(g), |g|);
    if |g| < 3 {
      PackTail(g);
    }
  }

  lemma CanonicalGroupRoundTrip(q: string, last: bool)
    requires |q| == 4 && CanonicalGroup(q, last)
    ensures DecodeGroup(q).Some? && 1 <= |DecodeGroup(q).value| <= 3
    ensures !last ==> |DecodeGroup(q).value| == 3
    ensures EncodeGroup(DecodeGroup(q).value) == q
  {
    var a, b, c, d := Rev(q[0]), Rev(q[1]), Rev(q[2]), Rev(q[3]);
    RevBound(q[0]);
    RevBound(q[1]);
    RevBound(q[2]);
    RevBound(q[3]);
    var g := DecodeGroup(q).value;
    PackOfBytes(a, b, c, d);
    SextetsOf(a, b, ZeroIfNegative(c), ZeroIfNegative(d));
    SameRevSameString(EncodeGroup(g), q, Pack(g), |g|);
  }

  lemma RevBound(c: char)
    ensures -2 <= Rev(c) < 64
  {
  }

  /** Keeping two bytes needs the low sextet to be zero, keeping one byte needs
      the low two sextets and four bits more to be zero: then nothing is lost. */
  lemma PackOfBytes(a: int, b: int, c: int, d: int)
    requires 0 <= a < 64 && 0 <= b < 64 && -2 <= c < 64 && -2 <= d < 64
    requires (c >= 0 && d >= 0) || (c >= 0 && d == -2 && c % 4 == 0) || (c == -2 && d == -2 && b % 16 == 0)
    ensures var g := BytesOf(Bits(a, b, ZeroIfNegative(c), ZeroIfNegative(d)), c != -2, d != -2);
      |g| == (if c < 0 then 1 else if d < 0 then 2 else 3) && Pack(g) == Bits(a, b, ZeroIfNegative(c), ZeroIfNegative(d))
  {
    var v := Bits(a, b, ZeroIfNegative(c), ZeroIfNegative(d));
    BytesRecombine(v);
    if d < 0 {
      Div256(a * 1024 + b * 16 + ZeroIfNegative(c) / 4, 0);
    }
    if c < 0 {
      Div256(a * 4 + b / 16, 0);
    }
  }

  lemma SameRevSameString(s: string, q: string, v: int, n: int)
    requires |q| == 4 && 0 <= v && s == Symbols(v, n)
    requires Rev(q[0]) == v / 262144 % 64 && Rev(q[1]) == v / 4096 % 64
    requires Rev(q[2]) == if n > 1 then v / 64 % 64 else -2
    requires Rev(q[3]) == if n > 2 then v % 64 else -2
    ensures s == q
  {
    SymbolsRev(v, n);
    RevInjective(s[0], q[0]);
    RevInjective(s[1], q[1]);
    RevInjective(s[2], q[2]);
    RevInjective(s[3], q[3]);
  }

  // ---------------------------------------------------------------- whole strings

  function Encode(x: seq<byte>): string {
    if x == [] then ""
    else if |x| <= 3 then EncodeGroup(x)
    else EncodeGroup(x[..3]) + Encode(x[3..])
  }

  /** The table of the alphabet. */
  lemma Alphabet(i: int)
    requires 0 <= i < 64
    ensures i < 26 ==> Sym(i) == "ABCDEFGHIJKLMNOPQRSTUVWXYZ"[i]
    ensures 26 <= i < 52 ==> Sym(i) == "abcdefghijklmnopqrstuvwxyz"[i - 26]
    ensures 52 <= i ==> Sym(i) == "0123456789+/"[i - 52]
  {
  }

  /** The encoding cuts the bits of three bytes into four groups of six, the highest
      first; a shorter end is filled up with zero bits and pads. */
  lemma EncodeBits(x: byte, y: byte, z: byte, rest: seq<byte>)
    ensures Encode([x, y, z] + rest)
      == [Sym(x / 4), Sym(x % 4 * 16 + y / 16), Sym(y % 16 * 4 + z / 64), Sym(z % 64)] + Encode(rest)
    ensures Encode([x, y]) == [Sym(x / 4), Sym(x % 4 * 16 + y / 16), Sym(y % 16 * 4), '=']
    ensures Encode([x]) == [Sym(x / 4), Sym(x % 4 * 16), '=', '=']
    ensures Encode([]) == ""
  {
    EncodeThree(x, y, z, rest);
    GroupBits(x, y, z);
    assert Encode([x, y]) == EncodeGroup([x, y]) && Encode([x]) == EncodeGroup([x]);
    hide Sym, Encode, EncodeGroup;
  }

  lemma EncodeThree(x: byte, y: byte, z: byte, rest: seq<byte>)
    ensures Encode([x, y, z] + rest) == EncodeGroup([x, y, z]) + Encode(rest)
  {
    hide EncodeGroup;
    var all := [x, y, z] + rest;
    assert all[..3] == [x, y, z] && all[3..] == rest;
    if rest == [] {
      assert all == [x, y, z] && EncodeGroup(all) + "" == EncodeGroup(all);
    }
  }

  lemma GroupBits(x: byte, y: byte, z: byte)
    ensures EncodeGroup([x, y, z])
      == [Sym(x / 4), Sym(x % 4 * 16 + y / 16), Sym(y % 16 * 4 + z / 64), Sym(z % 64)]
    ensures EncodeGroup([x, y]) == [Sym(x / 4), Sym(x % 4 * 16 + y / 16), Sym(y % 16 * 4), '=']
    ensures EncodeGroup([x]) == [Sym(x / 4), Sym(x % 4 * 16), '=', '=']
  {
    hide Sym, Symbols;
    SymbolsBits(x, y, z, 3);
    SymbolsBits(x, y, 0, 2);
    SymbolsBits(x, 0, 0, 1);
  }

  lemma SymbolsBits(x: byte, y: byte, z: byte, n: int)
    ensures Symbols(x * 65536 + y * 256 + z, n)
      == [Sym(x / 4), Sym(x % 4 * 16 + y / 16),
          if n > 1 then Sym(y % 16 * 4 + z / 64) else '=', if n > 2 then Sym(z % 64) else '=']
  {
    SixBits(x, y, z);
    hide Sym;
  }

  lemma SixBits(x: byte, y: byte, z: byte)
    ensures var v := x * 65536 + y * 256 + z;
      && v / 262144 % 64 == x / 4 && v / 4096 % 64 == x % 4 * 16 + y / 16
      && v / 64 % 64 == y % 16 * 4 + z / 64 && v % 64 == z % 64
  {
    var a: int, b: int, c: int, d: int := x / 4, x % 4 * 16 + y / 16, y % 16 * 4 + z / 64, z % 64;
    assert x * 65536 + y * 256 + z == Bits(a, b, c, d);
    SextetsOf(a, b, c, d);
  }

  /** The bytes of one group followed by those of the rest. */
  function Join(a: Option<seq<byte>>, b: Option<seq<byte>>): Option<seq<byte>> {
    if a.Some? && b.Some? then Some(a.value + b.value) else None
  }

  function Decode(s: string): Option<seq<byte>> {
    if |s| % 4 != 0 then None
    else if s == "" then Some([])
    else Join(DecodeGroup(s[..4]), Decode(s[4..]))
  }

  predicate Canonical(s: string) {
    |s| % 4 == 0 && (s == "" || (CanonicalGroup(s[..4], |s| == 4) && Canonical(s[4..])))
  }

  // How each definition meets a leading group.

  lemma EncodeCons(g: seq<byte>, x: seq<byte>)
    requires |g| == 3
    ensures Encode(g + x) == EncodeGroup(g) + Encode(x)
  {
    hide EncodeGroup;
    assert (g + x)[..3] == g && (g + x)[3..] == x;
    if x == [] {
      assert g + x == g;
    }
  }

  lemma DecodeCons(q: string, s: string)
    requires |q| == 4
    ensures Decode(q + s) == Join(DecodeGroup(q), Decode(s))
  {
    hide DecodeGroup;
    assert (q + s)[..4] == q && (q + s)[4..] == s;
  }

  lemma DecodeOneGroup(q: string)
    requires |q| == 4
    ensures Decode(q) == DecodeGroup(q)
  {
    hide DecodeGroup;
    DecodeCons(q, "");
    assert q + "" == q;
    if DecodeGroup(q).Some? {
      assert DecodeGroup(q).value + [] == DecodeGroup(q).value;
    }
  }

  lemma CanonicalCons(q: string, s: string)
    requires |q| == 4
    ensures Canonical(q + s) <==> CanonicalGroup(q, s == "") && Canonical(s)
  {
    hide CanonicalGroup;
    assert (q + s)[..4] == q && (q + s)[4..] == s;
  }

  /** The encoding has four characters for every started group of three bytes. */
  lemma {:induction false} EncodedLength(x: seq<byte>)
    ensures |Encode(x)| == (|x| + 2) / 3 * 4
    decreases |x|
  {
    hide EncodeGroup;
    if |x| > 3 {
      EncodedLength(x[3..]);
    }
  }

  lemma JoinAssociative(a: Option<seq<byte>>, b: Option<seq<byte>>, c: Option<seq<byte>>)
    ensures Join(Join(a, b), c) == Join(a, Join(b, c))
  {
    if a.Some? && b.Some? && c.Some? {
      assert (a.value + b.value) + c.value == a.value + (b.value + c.value);
    }
  }

  /** Decoding is additive at group boundaries, padding included. */
  lemma {:induction false} DecodeConcat(s: string, t: string)
    requires |s| % 4 == 0
    ensures Decode(s + t) == Join(Decode(s), Decode(t))
    decreases |s|
  {
    hide DecodeGroup;
    if s == "" {
      assert s + t == t;
      if Decode(t).Some? {
        assert [] + Decode(t).value == Decode(t).value;
      }
    } else {
      hide Decode, Join;
      var q, rest := s[..4], s[4..];
      assert s == q + rest && s + t == q + (rest + t);
      DecodeCons(q, rest);
      DecodeCons(q, rest + t);
      DecodeConcat(rest, t);
      JoinAssociative(DecodeGroup(q), Decode(rest), Decode(t));
    }
  }

  lemma {:induction false} RoundTrip(x: seq<byte>)
    ensures Decode(Encode(x)) == Some(x)
    decreases |x|
  {
    hide DecodeGroup, EncodeGroup;
    if x == [] {
    } else if |x| <= 3 {
      GroupRoundTrip(x);
      DecodeOneGroup(EncodeGroup(x));
    } else {
      GroupRoundTrip(x[..3]);
      RoundTrip(x[3..]);
      DecodeCons(EncodeGroup(x[..3]), Encode(x[3..]));
      assert x == x[..3] + x[3..];
    }
  }

  /** Encodings can be joined even where the first ends in padding. */
  lemma JoinedRoundTrip(x: seq<byte>, y: seq<byte>)
    ensures Decode(Encode(x) + Encode(y)) == Some(x + y)
  {
    hide Decode, Encode;
    RoundTrip(x);
    RoundTrip(y);
    EncodedLength(x);
    DecodeConcat(Encode(x), Encode(y));
  }

  lemma {:induction false} EncodedIsCanonical(x: seq<byte>)
    ensures Canonical(Encode(x))
    decreases |x|
  {
    hide CanonicalGroup, EncodeGroup;
    if x == [] {
    } else if |x| <= 3 {
      EncodedGroupIsCanonical(x);
      CanonicalCons(EncodeGroup(x), "");
      assert EncodeGroup(x) + "" == EncodeGroup(x);
    } else {
      EncodedGroupIsCanonical(x[..3]);
      EncodedIsCanonical(x[3..]);
      EncodedLength(x[3..]);
      CanonicalCons(EncodeGroup(x[..3]), Encode(x[3..]));
    }
  }

  lemma {:induction false} CanonicalRoundTrip(s: string)
    requires Canonical(s)
    ensures Decode(s).Some? && Encode(Decode(s).value) == s
    decreases |s|
  {
    if s != "" {
      hide DecodeGroup, CanonicalGroup, EncodeGroup;
      var q, rest := s[..4], s[4..];
      assert s == q + rest;
      CanonicalCons(q, rest);
      CanonicalGroupRoundTrip(q, rest == "");
      DecodeCons(q, rest);
      if rest == "" {
        assert DecodeGroup(q).value + [] == DecodeGroup(q).value && q + "" == q;
      } else {
        CanonicalRoundTrip(rest);
        EncodeCons(DecodeGroup(q).value, Decode(rest).value);
      }
    }
  }

  /** The decoder accepts more than the encoder produces; it is undone by the
      encoder exactly on the canonical strings. */
  lemma EncodeUndoesDecodeIffCanonical(s: string)
    ensures (Decode(s).Some? && Encode(Decode(s).value) == s) <==> Canonical(s)
  {
    hide Decode, Encode, Canonical;
    if Canonical(s) {
      CanonicalRoundTrip(s);
    } else if Decode(s).Some? && Encode(Decode(s).value) == s {
      EncodedIsCanonical(Decode(s).value);
    }
  }

  /** Such as any group whose third character is outside the alphabet: it is
      read as zero bits. */
  lemma BadCharactersAreAccepted(q: string)
    requires |q| == 4 && Rev(q[0]) >= 0 && Rev(q[1]) >= 0 && Rev(q[2]) == -1
    ensures Decode(q).Some? && !Canonical(q)
  {
    DecodeOneGroup(q);
    RevBound(q[3]);
    assert q[..4] == q;
  }

  /** Every encoded character is in the alphabet or is the pad. */
  lemma {:induction false} EncodedChars(x: seq<byte>)
    ensures forall c :: c in Encode(x) ==> Rev(c) != -1
    decreases |x|
  {
    hide EncodeGroup, Rev;
    if x == [] {
    } else if |x| <= 3 {
      EncodedGroupIsCanonical(x);
    } else {
      EncodedGroupIsCanonical(x[..3]);
      EncodedChars(x[3..]);
    }
  }

  // ---------------------------------------------------------------- the loops

  lemma {:induction false} EncodeSnoc(x: seq<byte>, g: seq<byte>)
    requires |x| % 3 == 0 && 1 <= |g| <= 3
    ensures Encode(x + g) == Encode(x) + EncodeGroup(g)
    decreases |x|
  {
    hide EncodeGroup;
    if x == [] {
      assert x + g == g;
      if |g| == 3 {
        assert "" + EncodeGroup(g) == EncodeGroup(g);
      }
    } else {
      hide Encode;
      var h, rest := x[..3], x[3..];
      assert x == h + rest && x + g == h + (rest + g);
      EncodeCons(h, rest);
      EncodeCons(h, rest + g);
      EncodeSnoc(rest, g);
      assert EncodeGroup(h) + (Encode(rest) + EncodeGroup(g)) == (EncodeGroup(h) + Encode(rest)) + EncodeGroup(g);
    }
  }

  /** One round of the encoding loop. */
  method WriteGroup(input: array<byte>, i: nat, inlen: nat, out: array<char>, olen: nat)
    requires i < inlen <= input.Length && olen + 4 <= out.Length
    modifies out
    ensures out[olen..olen + 4] == EncodeGroup(input[i..if i + 3 <= inlen then i + 3 else inlen])
    ensures out[..olen] == old(out[..olen])
  {
    var v: int := input[i];
    v := v * 65536;
    if i + 1 < inlen {
      var second: int := input[i + 1];
      v := v + second * 256;
    }
    if i + 2 < inlen {
      v := v + input[i + 2];
    }
    assert v == Pack(input[i..if i + 3 <= inlen then i + 3 else inlen]);
    out[olen] := Sym(v / 262144 % 64);
    out[olen + 1] := Sym(v / 4096 % 64);
    out[olen + 2] := if i + 1 < inlen then Sym(v / 64 % 64) else '=';
    out[olen + 3] := if i + 2 < inlen then Sym(v % 64) else '=';
  }

  /** b64_encode_block: fills `out` from the front. */
  method EncodeBlock(input: array<byte>, inlen: nat, out: array<char>) returns (olen: nat)
    requires inlen <= input.Length && (inlen + 2) / 3 * 4 <= out.Length
    modifies out
    ensures olen == (inlen + 2) / 3 * 4
    ensures out[..olen] == Encode(input[..inlen])
  {
    hide Encode, EncodeGroup;
    olen := 0;
    var i, k := 0, 0;
    ghost var all := input[..inlen];
    EncodedSoFarStart(all);
    while i < inlen
      invariant i == 3 * k && olen == 4 * k && k <= (inlen + 2) / 3
      invariant out[..olen] == EncodedSoFar(all, k)
    {
      EncodedSoFarStep(all, k);
      WriteGroup(input, i, inlen, out, olen);
      assert input[i..if i + 3 <= inlen then i + 3 else inlen] == GroupAt(all, k);
      assert out[..olen + 4] == out[..olen] + out[olen..olen + 4];
      olen := olen + 4;
      i, k := i + 3, k + 1;
    }
    EncodedSoFarEnd(all, k);
  }

  /** Group k of the input. */
  function GroupAt(x: seq<byte>, k: nat): seq<byte>
    requires 3 * k < |x|
  {
    x[3 * k..if 3 * k + 3 <= |x| then 3 * k + 3 else |x|]
  }

  /** The encoding of the first k groups. */
  ghost function EncodedSoFar(x: seq<byte>, k: nat): string {
    Encode(if 3 * k <= |x| then x[..3 * k] else x)
  }

  lemma EncodedSoFarStart(x: seq<byte>)
    ensures EncodedSoFar(x, 0) == ""
  {
  }

  lemma EncodedSoFarStep(x: seq<byte>, k: nat)
    requires 3 * k < |x|
    ensures EncodedSoFar(x, k + 1) == EncodedSoFar(x, k) + EncodeGroup(GroupAt(x, k))
  {
    hide Encode, EncodeGroup;
    var front := x[..3 * k];
    EncodeSnoc(front, GroupAt(x, k));
    if 3 * k + 3 <= |x| {
      assert x[..3 * k + 3] == front + GroupAt(x, k);
    } else {
      assert x == front + GroupAt(x, k);
    }
  }

  lemma EncodedSoFarEnd(x: seq<byte>, k: nat)
    requires 3 * k >= |x|
    ensures EncodedSoFar(x, k) == Encode(x)
  {
    hide Encode;
    assert 3 * k <= |x| ==> x[..3 * k] == x;
  }

  lemma DecodeSnoc(s: string, q: string)
    requires |s| % 4 == 0 && |q| == 4
    ensures Decode(s + q) == Join(Decode(s), DecodeGroup(q))
  {
    hide Decode, DecodeGroup;
    DecodeConcat(s, q);
    DecodeOneGroup(q);
  }

  /** One round of the decoding loop: the new output length, or -1. */
  method ReadGroup(q: string, out: array<byte>, olen: nat) returns (end: int)
    requires |q| == 4 && olen + 3 <= out.Length
    modifies out
    ensures end == -1 <==> DecodeGroup(q) == None
    ensures end != -1 ==> olen < end <= olen + 3 && DecodeGroup(q) == Some(out[olen..end])
    ensures out[..olen] == old(out[..olen])
  {
    hide Rev, Bits;
    var a, b, c, d := Rev(q[0]), Rev(q[1]), Rev(q[2]), Rev(q[3]);
    if a < 0 || b < 0 || c < -2 || d < -2 {
      return -1;
    }
    var v := Bits(a, b, ZeroIfNegative(c), ZeroIfNegative(d));
    out[olen] := v / 65536 % 256;
    end := olen + 1;
    if c != -2 {
      out[end] := v / 256 % 256;
      end := end + 1;
    }
    if d != -2 {
      out[end] := v % 256;
      end := end + 1;
    }
    assert out[olen..end] == BytesOf(v, c != -2, d != -2);
  }

  /** b64_decode_block; -1 is failure. */
  method DecodeBlock(input: string, out: array<byte>) returns (olen: int)
    requires |input| / 4 * 3 <= out.Length
    modifies out
    ensures olen == -1 <==> Decode(input) == None
    ensures olen != -1 ==> 0 <= olen <= out.Length && Decode(input) == Some(out[..olen])
  {
    hide DecodeGroup;
    if |input| % 4 != 0 {
      return -1;
    }
    olen := 0;
    var i := 0;
    while i < |input|
      invariant 0 <= i <= |input| && i % 4 == 0
      invariant 0 <= 4 * olen <= 3 * i
      invariant olen <= out.Length && Decode(input[..i]) == Some(out[..olen])
    {
      var q := input[i..i + 4];
      assert input[..i + 4] == input[..i] + q;
      DecodeSnoc(input[..i], q);
      var end := ReadGroup(q, out, olen);
      if end == -1 {
        assert input == input[..i + 4] + input[i + 4..];
        DecodeConcat(input[..i + 4], input[i + 4..]);
        return -1;
      }
      assert out[..end] == out[..olen] + out[olen..end];
      olen := end;
      i := i + 4;
    }
    assert input[..i] == input;
  }
}

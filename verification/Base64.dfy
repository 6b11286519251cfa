/** Base64 in its default and its URL-safe form (sections 4 and 5 of RFC 4648): dnsstamp/src/base64.cpp.
    Text is a sequence of bytes here, as it is there. */
module Base64 {
  import opened Text

  type Sextet = x: int | 0 <= x < 64

  const PADDING: Byte := 61
  const INVALID: Byte := 77

  const PLUS: Byte := 43
  const MINUS: Byte := 45
  const SLASH: Byte := 47
  const UNDERSCORE: Byte := 95

  // ----- the tables ---------------------------------------------------------------------------------

  /** Entry `v` of the default table: A-Z, a-z, 0-9, `+`, `/`. */
  function DefaultChar(v: Sextet): Byte {
    if v < 26 then 65 + v else if v < 52 then 71 + v else if v < 62 then v - 4 else if v == 62 then PLUS else SLASH
  }

  /** Entry `c` of the default basis: the value of a character code, or 77 when it has none. */
  function DefaultBasis(c: Byte): Byte {
    if 65 <= c < 91 then c - 65 else if 97 <= c < 123 then c - 71 else if 48 <= c < 58 then c + 4
    else if c == PLUS then 62 else if c == SLASH then 63 else INVALID
  }

  function UrlSafeChar(c: Byte): Byte {
    if c == PLUS then MINUS else if c == SLASH then UNDERSCORE else c
  }

  /** The URL-safe table is the default one with two characters replaced, wherever they stand. */
  method UrlSafeTable(table: Bytes) returns (r: Bytes)
    ensures |r| == |table| && forall i :: 0 <= i < |table| ==> r[i] == UrlSafeChar(table[i])
  {
    r := table;
    for i := 0 to |table|
      invariant |r| == |table|
      invariant forall j :: 0 <= j < i ==> r[j] == UrlSafeChar(table[j])
      invariant forall j :: i <= j < |table| ==> r[j] == table[j]
    {
      if r[i] == PLUS {
        r := r[i := MINUS];
      } else if r[i] == SLASH {
        r := r[i := UNDERSCORE];
      }
    }
  }

  /** The URL-safe basis is the default one with two pairs of entries swapped. */
  function Partner(c: Byte): Byte {
    if c == PLUS then MINUS else if c == MINUS then PLUS
    else if c == SLASH then UNDERSCORE else if c == UNDERSCORE then SLASH
    else c
  }

  method UrlSafeBasis(basis: Bytes) returns (r: Bytes)
    requires |basis| == 256
    ensures |r| == 256 && forall c: Byte :: r[c] == basis[Partner(c)]
  {
    r := basis;
    r := r[MINUS := r[PLUS]][PLUS := r[MINUS]];
    r := r[UNDERSCORE := r[SLASH]][SLASH := r[UNDERSCORE]];
  }

  /** The character of a value, and the value of a character code. */
  function Char(v: Sextet, urlSafe: bool): Byte {
    if urlSafe then UrlSafeChar(DefaultChar(v)) else DefaultChar(v)
  }

  function Basis(c: Byte, urlSafe: bool): Byte {
    if urlSafe then DefaultBasis(Partner(c)) else DefaultBasis(c)
  }

  lemma TablesAreInverse(v: Sextet, urlSafe: bool)
    ensures Basis(Char(v, urlSafe), urlSafe) == v && Char(v, urlSafe) != PADDING
  {
  }

  lemma BasisIsInverse(c: Byte, urlSafe: bool)
    ensures Basis(c, urlSafe) != INVALID ==> Basis(c, urlSafe) < 64 && c != PADDING
    ensures Basis(c, urlSafe) != INVALID ==> Char(Basis(c, urlSafe), urlSafe) == c
  {
  }

  /** The alphabets: letters, digits, and two characters that differ. */
  lemma Alphabet(v: Sextet, urlSafe: bool)
    ensures v < 26 ==> Char(v, urlSafe) == 'A' as int + v
    ensures 26 <= v < 52 ==> Char(v, urlSafe) == 'a' as int + v - 26
    ensures 52 <= v < 62 ==> Char(v, urlSafe) == '0' as int + v - 52
    ensures v == 62 ==> Char(v, urlSafe) == if urlSafe then '-' as int else '+' as int
    ensures v == 63 ==> Char(v, urlSafe) == if urlSafe then '_' as int else '/' as int
  {
  }

  // ----- groups of six and eight bits -----------------------------------------------------------------

  /** The four values of three octets, and the octets of four values. */
  function Sextet1(a: Byte): Sextet { a / 4 }
  function Sextet2(a: Byte, b: Byte): Sextet { a % 4 * 16 + b / 16 }
  function Sextet3(b: Byte, c: Byte): Sextet { b % 16 * 4 + c / 64 }
  function Sextet4(c: Byte): Sextet { c % 64 }

  function Octet1(w: Sextet, x: Sextet): Byte { w * 4 + x / 16 }
  function Octet2(x: Sextet, y: Sextet): Byte { x % 16 * 16 + y / 4 }
  function Octet3(y: Sextet, z: Sextet): Byte { y % 4 * 64 + z }

  function EncodeGroup(d: Bytes): seq<Sextet> {
    if |d| == 1 then [Sextet1(d[0]), Sextet2(d[0], 0)]
    else if |d| == 2 then [Sextet1(d[0]), Sextet2(d[0], d[1]), Sextet3(d[1], 0)]
    else if |d| == 3 then [Sextet1(d[0]), Sextet2(d[0], d[1]), Sextet3(d[1], d[2]), Sextet4(d[2])]
    else []
  }

  function DecodeGroup(v: seq<Sextet>): Bytes {
    if |v| == 2 then [Octet1(v[0], v[1])]
    else if |v| == 3 then [Octet1(v[0], v[1]), Octet2(v[1], v[2])]
    else if |v| == 4 then [Octet1(v[0], v[1]), Octet2(v[1], v[2]), Octet3(v[2], v[3])]
    else []
  }

  /** The bits of the last value that no octet takes are zero, and no value stands alone. */
  predicate CanonicalGroup(v: seq<Sextet>) {
    || (|v| == 2 && v[1] % 16 == 0)
    || (|v| == 3 && v[2] % 4 == 0)
    || |v| == 4
  }

  lemma GroupRoundTrip(a: Byte, b: Byte, c: Byte)
    ensures Octet1(Sextet1(a), Sextet2(a, b)) == a
    ensures Octet2(Sextet2(a, b), Sextet3(b, c)) == b
    ensures Octet3(Sextet3(b, c), Sextet4(c)) == c
  {
    assert (a % 4 * 16 + b / 16) / 16 == a % 4;
    assert (a % 4 * 16 + b / 16) % 16 == b / 16;
    assert (b % 16 * 4 + c / 64) / 4 == b % 16;
    assert (b % 16 * 4 + c / 64) % 4 == c / 64;
  }

  lemma GroupBack(w: Sextet, x: Sextet, y: Sextet, z: Sextet)
    ensures Sextet1(Octet1(w, x)) == w
    ensures Sextet2(Octet1(w, x), Octet2(x, y)) == x
    ensures Sextet3(Octet2(x, y), Octet3(y, z)) == y
    ensures Sextet4(Octet3(y, z)) == z
    ensures Sextet2(Octet1(w, x), 0) == x <==> x % 16 == 0
    ensures Sextet3(Octet2(x, y), 0) == y <==> y % 4 == 0
  {
    assert (w * 4 + x / 16) / 4 == w && (w * 4 + x / 16) % 4 == x / 16;
    assert (x % 16 * 16 + y / 4) / 16 == x % 16 && (x % 16 * 16 + y / 4) % 16 == y / 4;
    assert (y % 4 * 64 + z) / 64 == y % 4 && (y % 4 * 64 + z) % 64 == z;
  }

  /** Three octets and their four values are the same number of 24 bits; bytes that are missing count as zero. */
  lemma GroupNumber(d: Bytes)
    requires 1 <= |d| <= 3
    ensures var b, c := if |d| > 1 then d[1] else 0, if |d| > 2 then d[2] else 0;
            var v := EncodeGroup(d) + [0, 0];
            0x1_0000 * (d[0] as int) + 0x100 * (b as int) + c as int ==
            0x4_0000 * (v[0] as int) + 0x1000 * (v[1] as int) + 0x40 * (v[2] as int) +
            (if |d| > 2 then v[3] as int else 0)
  {
    var b, c := if |d| > 1 then d[1] else 0, if |d| > 2 then d[2] else 0;
    NumberOfThree(d[0], b, c);
  }

  lemma NumberOfThree(a: Byte, b: Byte, c: Byte)
    ensures 0x1_0000 * (a as int) + 0x100 * (b as int) + c as int ==
            0x4_0000 * (Sextet1(a) as int) + 0x1000 * (Sextet2(a, b) as int) + 0x40 * (Sextet3(b, c) as int) +
            Sextet4(c) as int
  {
  }

  lemma EncodeOne(a: Byte)
    ensures DecodeGroup([Sextet1(a), Sextet2(a, 0)]) == [a]
  {
    GroupRoundTrip(a, 0, 0);
  }

  lemma EncodeTwo(a: Byte, b: Byte)
    ensures DecodeGroup([Sextet1(a), Sextet2(a, b), Sextet3(b, 0)]) == [a, b]
  {
    GroupRoundTrip(a, b, 0);
  }

  lemma EncodeThree(a: Byte, b: Byte, c: Byte)
    ensures DecodeGroup([Sextet1(a), Sextet2(a, b), Sextet3(b, c), Sextet4(c)]) == [a, b, c]
  {
    GroupRoundTrip(a, b, c);
  }

  lemma DecodeFour(w: Sextet, x: Sextet, y: Sextet, z: Sextet)
    ensures EncodeGroup(DecodeGroup([w, x])) == [w, x] <==> x % 16 == 0
    ensures EncodeGroup(DecodeGroup([w, x, y])) == [w, x, y] <==> y % 4 == 0
    ensures EncodeGroup(DecodeGroup([w, x, y, z])) == [w, x, y, z]
  {
    GroupBack(w, x, y, z);
    var d2 := EncodeGroup(DecodeGroup([w, x]));
    assert d2 == [Sextet1(Octet1(w, x)), Sextet2(Octet1(w, x), 0)];
    var d3 := EncodeGroup(DecodeGroup([w, x, y]));
    assert d3 == [Sextet1(Octet1(w, x)), Sextet2(Octet1(w, x), Octet2(x, y)), Sextet3(Octet2(x, y), 0)];
    assert d2[1] == Sextet2(Octet1(w, x), 0) && d3[2] == Sextet3(Octet2(x, y), 0);
  }

  lemma EncodeGroupLaw(d: Bytes)
    requires 1 <= |d| <= 3
    ensures DecodeGroup(EncodeGroup(d)) == d
  {
    if |d| == 1 {
      assert d == [d[0]];
      EncodeOne(d[0]);
    } else if |d| == 2 {
      assert d == [d[0], d[1]];
      EncodeTwo(d[0], d[1]);
    } else {
      assert d == [d[0], d[1], d[2]];
      EncodeThree(d[0], d[1], d[2]);
    }
  }

  lemma DecodeGroupLaw(v: seq<Sextet>)
    requires 1 <= |v| <= 4
    ensures EncodeGroup(DecodeGroup(v)) == v <==> CanonicalGroup(v)
  {
    if |v| == 2 {
      assert v == [v[0], v[1]];
      DecodeFour(v[0], v[1], 0, 0);
    } else if |v| == 3 {
      assert v == [v[0], v[1], v[2]];
      DecodeFour(v[0], v[1], v[2], 0);
    } else if |v| == 4 {
      assert v == [v[0], v[1], v[2], v[3]];
      DecodeFour(v[0], v[1], v[2], v[3]);
    }
  }

  // ----- whole sequences ------------------------------------------------------------------------------

  function Sextets(d: Bytes): seq<Sextet> {
    if d == [] then []
    else if |d| <= 3 then EncodeGroup(d)
    else EncodeGroup(d[..3]) + Sextets(d[3..])
  }

  function Octets(v: seq<Sextet>): Bytes {
    if v == [] then []
    else if |v| <= 4 then DecodeGroup(v)
    else DecodeGroup(v[..4]) + Octets(v[4..])
  }

  predicate Canonical(v: seq<Sextet>) {
    if v == [] then true else if |v| <= 4 then CanonicalGroup(v) else Canonical(v[4..])
  }

  lemma SextetsSplit(g: seq<Sextet>, v: seq<Sextet>)
    requires |g| == 4 && v != []
    ensures Octets(g + v) == DecodeGroup(g) + Octets(v)
  {
    assert (g + v)[..4] == g && (g + v)[4..] == v;
  }

  lemma OctetsSplit(g: Bytes, d: Bytes)
    requires |g| == 3 && d != []
    ensures Sextets(g + d) == EncodeGroup(g) + Sextets(d)
  {
    assert (g + d)[..3] == g && (g + d)[3..] == d;
  }

  lemma GroupSizes(d: Bytes, v: seq<Sextet>)
    ensures 1 <= |d| <= 3 ==> |EncodeGroup(d)| == |d| + 1
    ensures 1 <= |v| <= 4 ==> |DecodeGroup(v)| == |v| - 1
  {
  }

  lemma {:induction false} SextetsSize(d: Bytes)
    ensures |Sextets(d)| % 4 != 1 && (d != [] ==> |Sextets(d)| > 1)
  {
    if 1 <= |d| <= 3 {
      GroupSizes(d, []);
    } else if |d| > 3 {
      GroupSizes(d[..3], []);
      SextetsSize(d[3..]);
      MoreByFour(|Sextets(d[3..])|, |Sextets(d)|);
    }
  }

  lemma MoreByFour(n: nat, m: nat)
    requires n % 4 != 1 && m == 4 + n
    ensures m % 4 != 1
  {
  }

  lemma {:induction false} SextetsRoundTrip(d: Bytes)
    ensures Octets(Sextets(d)) == d
  {
    SextetsSize(d);
    if 1 <= |d| <= 3 {
      GroupSizes(d, []);
      EncodeGroupLaw(d);
    } else if |d| > 3 {
      GroupSizes(d[..3], []);
      EncodeGroupLaw(d[..3]);
      SextetsRoundTrip(d[3..]);
      SextetsSize(d[3..]);
      SextetsSplit(EncodeGroup(d[..3]), Sextets(d[3..]));
      assert d[..3] + d[3..] == d;
    }
  }

  /** Values become octets and the same values again exactly when they are canonical. */
  lemma {:induction false} OctetsBack(v: seq<Sextet>)
    ensures Sextets(Octets(v)) == v <==> Canonical(v)
    ensures Octets(v) == [] <==> |v| <= 1
  {
    if 1 <= |v| <= 4 {
      GroupSizes([], v);
      DecodeGroupLaw(v);
    } else if |v| > 4 {
      var g, rest := v[..4], v[4..];
      GroupSizes([], g);
      DecodeGroupLaw(g);
      OctetsBack(rest);
      assert v == g + rest;
      if |rest| == 1 {
        assert Octets(v) == DecodeGroup(g) + [];
        assert DecodeGroup(g) + [] == DecodeGroup(g);
      } else {
        OctetsSplit(DecodeGroup(g), Octets(rest));
        SameTail(g, Sextets(Octets(rest)), rest);
      }
    }
  }

  // ----- text -----------------------------------------------------------------------------------------

  function Chars(v: seq<Sextet>, urlSafe: bool): (r: Bytes)
    ensures |r| == |v|
    ensures forall i :: 0 <= i < |v| ==> r[i] == Char(v[i], urlSafe)
  {
    seq(|v|, i requires 0 <= i < |v| => Char(v[i], urlSafe))
  }

  /** Only the default form is padded to a multiple of four. */
  function Padding(size: nat, urlSafe: bool): Bytes {
    if urlSafe || size % 3 == 0 then [] else if size % 3 == 1 then [PADDING, PADDING] else [PADDING]
  }

  function Encoded(d: Bytes, urlSafe: bool): Bytes {
    Chars(Sextets(d), urlSafe) + Padding(|d|, urlSafe)
  }

  lemma {:induction false} SextetsCount(d: Bytes)
    ensures |Sextets(d)| == (4 * |d| + 2) / 3
  {
    if 1 <= |d| <= 3 {
      GroupSizes(d, []);
    } else if |d| > 3 {
      GroupSizes(d[..3], []);
      SextetsCount(d[3..]);
    }
  }

  /** In the default form, as many characters `=` as bring the text to a multiple of four; in the URL-safe one none. */
  lemma EncodedSize(d: Bytes)
    ensures |Encoded(d, false)| == 4 * ((|d| + 2) / 3)
    ensures forall i :: |Sextets(d)| <= i < |Encoded(d, false)| ==> Encoded(d, false)[i] == '=' as int
    ensures |Encoded(d, true)| == |Sextets(d)| == (4 * |d| + 2) / 3
  {
    SextetsCount(d);
    PaddingSize(|d|);
  }

  lemma PaddingSize(n: nat)
    ensures (4 * n + 2) / 3 + |Padding(n, false)| == 4 * ((n + 2) / 3)
    ensures forall i :: 0 <= i < |Padding(n, false)| ==> Padding(n, false)[i] == '=' as int
  {
    var q := n / 3;
    if n % 3 == 0 {
      assert n == 3 * q && (4 * n + 2) / 3 == 4 * q && (n + 2) / 3 == q;
    } else if n % 3 == 1 {
      assert n == 3 * q + 1 && (4 * n + 2) / 3 == 4 * q + 2 && (n + 2) / 3 == q + 1;
    } else {
      assert n == 3 * q + 2 && (4 * n + 2) / 3 == 4 * q + 3 && (n + 2) / 3 == q + 1;
    }
  }

  /** The characters before the padding, or `None` when one of them has no value. */
  function ValuesFrom(t: Bytes, urlSafe: bool, i: nat): Option<seq<Sextet>>
    requires i <= |t|
    decreases |t| - i
  {
    if i == |t| || t[i] == PADDING then Some([])
    else if Basis(t[i], urlSafe) == INVALID then None
    else
      BasisIsInverse(t[i], urlSafe);
      match ValuesFrom(t, urlSafe, i + 1)
      case None => None
      case Some(rest) => Some([Basis(t[i], urlSafe)] + rest)
  }

  function Decoded(t: Bytes, urlSafe: bool): Option<Bytes> {
    match ValuesFrom(t, urlSafe, 0)
    case None => None
    case Some(v) => if |v| % 4 == 1 then None else Some(Octets(v))
  }

  lemma {:induction false} CharsHaveValues(v: seq<Sextet>, t: Bytes, urlSafe: bool, i: nat)
    requires i <= |v| <= |t| && forall j :: 0 <= j < |v| ==> t[j] == Char(v[j], urlSafe)
    requires |v| == |t| || t[|v|] == PADDING
    ensures ValuesFrom(t, urlSafe, i) == Some(v[i..])
    decreases |v| - i
  {
    if i < |v| {
      TablesAreInverse(v[i], urlSafe);
      CharsHaveValues(v, t, urlSafe, i + 1);
      assert v[i..] == [v[i]] + v[i + 1..];
    }
  }

  /** Decoding what was encoded, in either form, returns the data. */
  lemma Base64RoundTrip(d: Bytes, urlSafe: bool)
    ensures Decoded(Encoded(d, urlSafe), urlSafe) == Some(d)
  {
    var v := Sextets(d);
    SextetsRoundTrip(d);
    SextetsSize(d);
    CharsHaveValues(v, Encoded(d, urlSafe), urlSafe, 0);
    assert v[0..] == v;
  }

  /** From `i` on the text spells the values, up to its padding or its end. */
  ghost predicate Spells(t: Bytes, i: nat, v: seq<Sextet>, code: Sextet -> Byte) {
    && i + |v| <= |t|
    && (i + |v| < |t| ==> t[i + |v|] == PADDING)
    && forall k :: i <= k < i + |v| ==> t[k] == code(v[k - i]) && t[k] != PADDING
  }

  lemma SpellsOneMore(t: Bytes, i: nat, x: Sextet, rest: seq<Sextet>, code: Sextet -> Byte)
    requires i < |t| && t[i] == code(x) && t[i] != PADDING && Spells(t, i + 1, rest, code)
    ensures Spells(t, i, [x] + rest, code)
  {
  }

  lemma {:induction false} ValuesAreChars(t: Bytes, urlSafe: bool, i: nat)
    requires i <= |t| && ValuesFrom(t, urlSafe, i).Some?
    ensures Spells(t, i, ValuesFrom(t, urlSafe, i).value, v => Char(v, urlSafe))
    decreases |t| - i
  {
    if i < |t| && t[i] != PADDING {
      BasisIsInverse(t[i], urlSafe);
      ValuesAreChars(t, urlSafe, i + 1);
      SpellsOneMore(t, i, Basis(t[i], urlSafe), ValuesFrom(t, urlSafe, i + 1).value, v => Char(v, urlSafe));
    }
  }

  lemma CharsDetermineValues(v: seq<Sextet>, w: seq<Sextet>, urlSafe: bool)
    ensures Chars(v, urlSafe) == Chars(w, urlSafe) <==> v == w
  {
    if Chars(v, urlSafe) == Chars(w, urlSafe) {
      assert |Chars(v, urlSafe)| == |v| && |Chars(w, urlSafe)| == |w|;
      forall i | 0 <= i < |v|
        ensures v[i] == w[i]
      {
        assert Chars(v, urlSafe)[i] == Chars(w, urlSafe)[i];
        TablesAreInverse(v[i], urlSafe);
        TablesAreInverse(w[i], urlSafe);
      }
    }
  }

  /** Of the texts that decode in the URL-safe form, encoding gives back exactly those without padding
      whose unused bits are zero. */
  lemma CanonicalTexts(t: Bytes)
    requires Decoded(t, true).Some?
    ensures Encoded(Decoded(t, true).value, true) == t <==>
            PADDING !in t && Canonical(ValuesFrom(t, true, 0).value)
  {
    var v := ValuesFrom(t, true, 0).value;
    ValuesAreChars(t, true, 0);
    OctetsBack(v);
    var d := Octets(v);
    assert Encoded(d, true) == Chars(Sextets(d), true);
    if PADDING !in t {
      assert t == Chars(v, true);
      CharsDetermineValues(Sextets(d), v, true);
    } else {
      NoPaddingInChars(Sextets(d), true);
    }
  }

  lemma NoPaddingInChars(v: seq<Sextet>, urlSafe: bool)
    ensures PADDING !in Chars(v, urlSafe)
  {
    forall i | 0 <= i < |v|
      ensures Chars(v, urlSafe)[i] != PADDING
    {
      TablesAreInverse(v[i], urlSafe);
    }
  }

  // ----- the loops ------------------------------------------------------------------------------------

  lemma SextetsNext(d: Bytes, i: nat)
    requires i + 3 <= |d|
    ensures Sextets(d[i..]) == EncodeGroup([d[i], d[i + 1], d[i + 2]]) + Sextets(d[i + 3..])
  {
    var rest := d[i..];
    assert rest[..3] == [d[i], d[i + 1], d[i + 2]] && rest[3..] == d[i + 3..];
    if |rest| == 3 {
      assert rest == rest[..3] && Sextets(d[i + 3..]) == [];
    }
  }

  lemma CharsConcat(a: seq<Sextet>, b: seq<Sextet>, urlSafe: bool)
    ensures Chars(a + b, urlSafe) == Chars(a, urlSafe) + Chars(b, urlSafe)
  {
  }

  /** What is pushed for three bytes. */
  function ThreeChars(a: Byte, b: Byte, c: Byte, urlSafe: bool): Bytes {
    [Char(Sextet1(a), urlSafe), Char(Sextet2(a, b), urlSafe), Char(Sextet3(b, c), urlSafe), Char(Sextet4(c), urlSafe)]
  }

  lemma ThreeCharsAreChars(a: Byte, b: Byte, c: Byte, urlSafe: bool)
    ensures ThreeChars(a, b, c, urlSafe) == Chars(EncodeGroup([a, b, c]), urlSafe)
  {
  }

  lemma EncodeStep(data: Bytes, i: nat, urlSafe: bool, result: Bytes)
    requires i + 3 <= |data|
    ensures (result + ThreeChars(data[i], data[i + 1], data[i + 2], urlSafe)) + Chars(Sextets(data[i + 3..]), urlSafe)
            == result + Chars(Sextets(data[i..]), urlSafe)
  {
    var group, rest := EncodeGroup([data[i], data[i + 1], data[i + 2]]), Sextets(data[i + 3..]);
    SextetsNext(data, i);
    CharsConcat(group, rest, urlSafe);
    ThreeCharsAreChars(data[i], data[i + 1], data[i + 2], urlSafe);
    Regroup(result, Chars(group, urlSafe), Chars(rest, urlSafe));
  }

  /** The characters that are done, and those of the bytes from `i` on. */
  ghost function EncodedFrom(data: Bytes, i: nat, done: Bytes, urlSafe: bool): Bytes
    requires i <= |data|
    decreases |data| - i
  {
    if i + 2 < |data| then
      EncodedFrom(data, i + 3, done + ThreeChars(data[i], data[i + 1], data[i + 2], urlSafe), urlSafe)
    else done + Chars(Sextets(data[i..]), urlSafe)
  }

  lemma {:induction false} EncodedBehind(data: Bytes, i: nat, done: Bytes, urlSafe: bool)
    requires i <= |data|
    ensures EncodedFrom(data, i, done, urlSafe) == done + Chars(Sextets(data[i..]), urlSafe)
    decreases |data| - i
  {
    if i + 2 < |data| {
      EncodedBehind(data, i + 3, done + ThreeChars(data[i], data[i + 1], data[i + 2], urlSafe), urlSafe);
      EncodeStep(data, i, urlSafe, done);
    }
  }

  lemma EncodedFromStart(data: Bytes, urlSafe: bool)
    ensures EncodedFrom(data, 0, [], urlSafe) == Chars(Sextets(data), urlSafe)
  {
    EncodedBehind(data, 0, [], urlSafe);
    assert data[0..] == data;
  }

  method EncodeToBase64(data: Bytes, urlSafe: bool) returns (result: Bytes)
    ensures result == Encoded(data, urlSafe)
  {
    result := [];
    var i := 0;
    while i + 2 < |data|
      invariant 0 <= i <= |data| && i % 3 == 0
      invariant EncodedFrom(data, i, result, urlSafe) == EncodedFrom(data, 0, [], urlSafe)
    {
      result := result + ThreeChars(data[i], data[i + 1], data[i + 2], urlSafe);
      i := i + 3;
    }
    PaddingForRest(|data|, i, urlSafe);
    result := FinishEncoding(data, urlSafe, i, result, EncodedFrom(data, 0, [], urlSafe));
    EncodedFromStart(data, urlSafe);
  }

  /** What is pushed for the one or two bytes that are left. */
  function LastChars(data: Bytes, i: nat, urlSafe: bool): Bytes
    requires i < |data| <= i + 2
  {
    if |data| - i == 1 then [Char(Sextet1(data[i]), urlSafe), Char(Sextet2(data[i], 0), urlSafe)]
    else
      [Char(Sextet1(data[i]), urlSafe), Char(Sextet2(data[i], data[i + 1]), urlSafe), Char(Sextet3(data[i + 1], 0), urlSafe)]
  }

  lemma LastCharsAreChars(data: Bytes, i: nat, urlSafe: bool)
    requires i < |data| <= i + 2
    ensures Chars(Sextets(data[i..]), urlSafe) == LastChars(data, i, urlSafe)
  {
    if |data| - i == 1 {
      assert data[i..] == [data[i]];
    } else {
      assert data[i..] == [data[i], data[i + 1]];
    }
  }

  lemma PaddingForRest(size: nat, i: nat, urlSafe: bool)
    requires i % 3 == 0 && i <= size <= i + 2
    ensures Padding(size, urlSafe) == Padding(size - i, urlSafe)
  {
  }

  /** The last one or two bytes, and the padding of the default form. */
  method FinishEncoding(data: Bytes, urlSafe: bool, i: nat, done: Bytes, ghost all: Bytes) returns (result: Bytes)
    requires i <= |data| <= i + 2
    requires done + Chars(Sextets(data[i..]), urlSafe) == all
    ensures result == all + Padding(|data| - i, urlSafe)
  {
    result := done;
    if i < |data| {
      LastCharsAreChars(data, i, urlSafe);
      assert Padding(1, urlSafe) == if urlSafe then [] else [PADDING] + [PADDING];
      result := result + LastChars(data, i, urlSafe);
      if |data| - i == 1 && !urlSafe {
        result := result + [PADDING];
      }
      if !urlSafe {
        result := result + [PADDING];
      }
    }
  }

  /** The characters before the padding; their number, or `None` when one of them has no value. */
  method CountValues(t: Bytes, urlSafe: bool) returns (len: Option<nat>)
    ensures len.None? <==> ValuesFrom(t, urlSafe, 0).None?
    ensures len.Some? ==> len.value == |ValuesFrom(t, urlSafe, 0).value|
  {
    var n := 0;
    while n < |t|
      invariant 0 <= n <= |t|
      invariant ValuesFrom(t, urlSafe, n).None? <==> ValuesFrom(t, urlSafe, 0).None?
      invariant ValuesFrom(t, urlSafe, n).Some? ==>
                  n + |ValuesFrom(t, urlSafe, n).value| == |ValuesFrom(t, urlSafe, 0).value|
    {
      if t[n] == PADDING {
        break;
      }
      if Basis(t[n], urlSafe) == INVALID {
        return None;
      }
      n := n + 1;
    }
    len := Some(n);
  }

  lemma OctetsNext(v: seq<Sextet>, i: nat)
    requires i + 4 <= |v|
    ensures Octets(v[i..]) == [Octet1(v[i], v[i + 1]), Octet2(v[i + 1], v[i + 2]), Octet3(v[i + 2], v[i + 3])]
                              + Octets(v[i + 4..])
  {
    var rest := v[i..];
    assert rest[..4] == [v[i], v[i + 1], v[i + 2], v[i + 3]] && rest[4..] == v[i + 4..];
    if |rest| == 4 {
      assert rest == rest[..4] && Octets(v[i + 4..]) == [];
    }
  }

  lemma DecodeStep(v: seq<Sextet>, i: nat, result: Bytes)
    requires i + 4 <= |v|
    ensures (result + [Octet1(v[i], v[i + 1]), Octet2(v[i + 1], v[i + 2]), Octet3(v[i + 2], v[i + 3])]) + Octets(v[i + 4..])
            == result + Octets(v[i..])
  {
    OctetsNext(v, i);
    Regroup(result, [Octet1(v[i], v[i + 1]), Octet2(v[i + 1], v[i + 2]), Octet3(v[i + 2], v[i + 3])], Octets(v[i + 4..]));
  }

  lemma DecodeRest(v: seq<Sextet>, i: nat)
    requires i <= |v| <= i + 3
    ensures Octets(v[i..]) == if |v| - i < 2 then []
                              else if |v| - i == 2 then [Octet1(v[i], v[i + 1])]
                              else [Octet1(v[i], v[i + 1])] + [Octet2(v[i + 1], v[i + 2])]
  {
    var rest := v[i..];
    if |v| - i == 2 {
      assert rest == [v[i], v[i + 1]];
    } else if |v| - i == 3 {
      assert rest == [v[i], v[i + 1], v[i + 2]];
    }
  }

  /** The value of a character that was found to have one. */
  function Value(t: Bytes, urlSafe: bool, i: nat): Sextet
    requires i < |t| && Basis(t[i], urlSafe) != INVALID
  {
    BasisIsInverse(t[i], urlSafe);
    Basis(t[i], urlSafe)
  }

  lemma ValuesAreThere(t: Bytes, urlSafe: bool)
    requires ValuesFrom(t, urlSafe, 0).Some?
    ensures var v := ValuesFrom(t, urlSafe, 0).value;
            && |v| <= |t|
            && forall j :: 0 <= j < |v| ==> Basis(t[j], urlSafe) != INVALID && Value(t, urlSafe, j) == v[j]
  {
    ValuesAreChars(t, urlSafe, 0);
    var v := ValuesFrom(t, urlSafe, 0).value;
    forall j | 0 <= j < |v|
      ensures Basis(t[j], urlSafe) == v[j]
    {
      assert t[j] == Char(v[j - 0], urlSafe);
      TablesAreInverse(v[j], urlSafe);
    }
  }

  method DecodeBase64(t: Bytes, urlSafe: bool) returns (r: Option<Bytes>)
    ensures r == Decoded(t, urlSafe)
  {
    var count := CountValues(t, urlSafe);
    if count.None? || count.value % 4 == 1 {
      return None;
    }
    ghost var v := ValuesFrom(t, urlSafe, 0).value;
    ValuesAreThere(t, urlSafe);
    var result: Bytes := [];
    var s, len := 0, count.value;
    assert v[0..] == v;
    while len > 3
      invariant 0 <= s <= |v| && len == |v| - s
      invariant result + Octets(v[s..]) == Octets(v)
    {
      DecodeStep(v, s, result);
      result := result + [Octet1(Value(t, urlSafe, s), Value(t, urlSafe, s + 1)),
                          Octet2(Value(t, urlSafe, s + 1), Value(t, urlSafe, s + 2)),
                          Octet3(Value(t, urlSafe, s + 2), Value(t, urlSafe, s + 3))];
      s := s + 4;
      len := len - 4;
    }
    DecodeRest(v, s);
    ghost var done := result;
    if len > 1 {
      result := result + [Octet1(Value(t, urlSafe, s), Value(t, urlSafe, s + 1))];
    }
    if len > 2 {
      result := result + [Octet2(Value(t, urlSafe, s + 1), Value(t, urlSafe, s + 2))];
    }
    assert result == done + Octets(v[s..]);
    r := Some(result);
  }
}

/** The Base64 codec. Section 4 of RFC 4648 reads the input as one bit stream, cut into sextets
    instead of octets. Here that stream is a numeral: the same number written with base-256
    digits (the bytes) and with base-64 digits (the alphabet's indices).
 */
module Base64 {
  import opened MachineWords

  type byte = x: int | 0 <= x < 256
  type sextet = x: int | 0 <= x < 64

  const ROW_0 := "ABCDEFGHIJKLMNOP"
  const ROW_1 := "QRSTUVWXYZabcdef"
  const ROW_2 := "ghijklmnopqrstuv"
  const ROW_3 := "wxyz0123456789+/"
  const ALPHABET := ROW_0 + ROW_1 + ROW_2 + ROW_3

  /** The inverse table: -1 outside the alphabet. */
  function Inverse(c: char): (v: int)
    ensures -1 <= v < 64
  {
    if 'A' <= c <= 'Z' then c as int - 'A' as int
    else if 'a' <= c <= 'z' then c as int - 'a' as int + 26
    else if '0' <= c <= '9' then c as int - '0' as int + 52
    else if c == '+' then 62
    else if c == '/' then 63
    else -1
  }

  predicate InAlphabet(c: char) { 0 <= Inverse(c) < 64 }

  lemma Rows01(k: int)
    requires 0 <= k < 16
    ensures Inverse(ROW_0[k]) == k && Inverse(ROW_1[k]) == 16 + k
  {
  }

  lemma Rows23(k: int)
    requires 0 <= k < 16
    ensures Inverse(ROW_2[k]) == 32 + k && Inverse(ROW_3[k]) == 48 + k
  {
  }

  lemma RowOf(v: int)
    requires 0 <= v < 64
    ensures |ALPHABET| == 64
    ensures ALPHABET[v] == (if v < 16 then ROW_0[v] else if v < 32 then ROW_1[v - 16]
                            else if v < 48 then ROW_2[v - 32] else ROW_3[v - 48])
  {
  }

  /** The inverse table inverts the alphabet, whose characters it tells from all others. */
  lemma InverseInverts(v: int)
    requires 0 <= v < 64
    ensures |ALPHABET| == 64 && Inverse(ALPHABET[v]) == v
  {
    hide Inverse;
    RowOf(v);
    if
    case v < 16 => Rows01(v);
    case 16 <= v < 32 => Rows01(v - 16);
    case 32 <= v < 48 => Rows23(v - 32);
    case 48 <= v => Rows23(v - 48);
  }

  /** `tab[v]`. */
  function Letter(v: nat): (c: char)
    requires v < 64
    ensures Inverse(c) == v
  {
    InverseInverts(v);
    ALPHABET[v]
  }

  function EncodedSize(n: nat): nat { 4 * ((n + 2) / 3) }

  function DecodedSize(n: nat): nat { n / 4 * 3 }

  // ---- The bit stream as a numeral ----

  /** The number that `digits` write in base `base`, most significant first. */
  function Numeral(base: nat, digits: seq<nat>): nat {
    if digits == [] then 0 else Numeral(base, digits[..|digits| - 1]) * base + digits[|digits| - 1]
  }

  function IndexOf(c: char): nat
    requires InAlphabet(c)
  {
    Inverse(c)
  }

  /** The sextets that characters of the alphabet stand for. */
  function Sextets(c: string): (s: seq<nat>)
    requires forall i :: 0 <= i < |c| ==> InAlphabet(c[i])
    ensures |s| == |c|
    ensures forall i :: 0 <= i < |s| ==> s[i] == Inverse(c[i]) < 64
  {
    seq(|c|, i requires 0 <= i < |c| => IndexOf(c[i]))
  }

  /** The length of the longest prefix of alphabet characters. */
  function PrefixLength(c: string): (n: nat)
    ensures n <= |c|
    ensures forall i :: 0 <= i < n ==> InAlphabet(c[i])
    ensures n < |c| ==> !InAlphabet(c[n])
  {
    if c == [] || !InAlphabet(c[0]) then 0 else 1 + PrefixLength(c[1..])
  }

  /** Sextets of bits that fill a last incomplete group, and the padding characters after it. */
  function Padding(n: nat): nat { (3 - n % 3) % 3 }

  /** What the zero bits that complete the last sextet multiply the number by. */
  function FillWeight(n: nat): nat {
    if n % 3 == 0 then 1 else if n % 3 == 1 then 16 else 4
  }

  /** What dropping the bits past the last whole byte of `n` sextets divides the number by. */
  function DropWeight(n: nat): nat {
    if n % 4 == 0 then 1 else if n % 4 == 1 then 64 else if n % 4 == 2 then 16 else 4
  }

  /** Section 4 of RFC 4648: `c` is the encoding of `b`. */
  ghost predicate IsEncoding(b: seq<byte>, c: string) {
    var n := |c| - Padding(|b|);
    && |c| == EncodedSize(|b|)
    && n >= 0
    && (forall i :: n <= i < |c| ==> c[i] == '=')
    && (forall i :: 0 <= i < n ==> InAlphabet(c[i]))
    && Numeral(64, Sextets(c[..n])) == Numeral(256, b) * FillWeight(|b|)
  }

  /** `out` is what decoding `c` writes, after consuming `consumed` characters. */
  ghost predicate IsDecoding(c: string, consumed: nat, out: seq<byte>) {
    && consumed == PrefixLength(c)
    && |out| == 3 * consumed / 4
    && Numeral(256, out) == Numeral(64, Sextets(c[..consumed])) / DropWeight(consumed)
  }

  lemma NumeralAppend(base: nat, s: seq<nat>, d: nat)
    ensures Numeral(base, s + [d]) == Numeral(base, s) * base + d
  {
    assert (s + [d])[..|s|] == s;
  }

  lemma AppendBytes(s: seq<nat>, x: nat, y: nat, z: nat)
    ensures Numeral(256, s + [x]) == Numeral(256, s) * 256 + x
    ensures Numeral(256, s + [x, y]) == Numeral(256, s) * 65536 + x * 256 + y
    ensures Numeral(256, s + [x, y, z]) == Numeral(256, s) * 16777216 + x * 65536 + y * 256 + z
  {
    NumeralAppend(256, s, x);
    NumeralAppend(256, s + [x], y);
    NumeralAppend(256, s + [x] + [y], z);
    assert s + [x] + [y] == s + [x, y];
    assert s + [x] + [y] + [z] == s + [x, y, z];
  }

  lemma AppendSextets(s: seq<nat>, a: nat, b: nat, c: nat, d: nat)
    ensures Numeral(64, s + [a]) == Numeral(64, s) * 64 + a
    ensures Numeral(64, s + [a, b]) == Numeral(64, s) * 4096 + a * 64 + b
    ensures Numeral(64, s + [a, b, c]) == Numeral(64, s) * 262144 + a * 4096 + b * 64 + c
    ensures Numeral(64, s + [a, b, c, d]) == Numeral(64, s) * 16777216 + a * 262144 + b * 4096 + c * 64 + d
  {
    NumeralAppend(64, s, a);
    NumeralAppend(64, s + [a], b);
    NumeralAppend(64, s + [a] + [b], c);
    NumeralAppend(64, s + [a] + [b] + [c], d);
    assert s + [a] + [b] == s + [a, b];
    assert s + [a] + [b] + [c] == s + [a, b, c];
    assert s + [a] + [b] + [c] + [d] == s + [a, b, c, d];
  }

  /** Digits of a fixed count are determined by the number they write. */
  lemma {:induction false} NumeralInjective(base: nat, s: seq<nat>, t: seq<nat>)
    requires |s| == |t| && Numeral(base, s) == Numeral(base, t)
    requires forall i :: 0 <= i < |s| ==> s[i] < base && t[i] < base
    ensures s == t
  {
    if s == [] {
    } else {
      var k := |s| - 1;
      DivModIs(Numeral(base, s), base, Numeral(base, s[..k]), s[k]);
      DivModIs(Numeral(base, t), base, Numeral(base, t[..k]), t[k]);
      NumeralInjective(base, s[..k], t[..k]);
      assert s == s[..k] + [s[k]] && t == t[..k] + [t[k]];
    }
  }

  // ---- One group at a time ----

  /** Three bytes as four sextets, with the masks and shifts written as quotients and remainders. */
  function GroupSextets(x: byte, y: byte, z: byte): (s: seq<nat>)
    ensures |s| == 4
  {
    var a, b, c: int := x, y, z;
    [a / 4, a % 4 * 16 + b / 16, c / 64 + b % 16 * 4, c % 64]
  }

  /** Sextets as bytes, each stored in eight bits. */
  function Octet0(a: nat, b: nat): byte { (a * 4 + b / 16 % 4) % 256 }

  function Octet1(b: nat, c: nat): byte { (b % 16 * 16 + c / 4 % 16) % 256 }

  function Octet2(c: nat, d: nat): byte { (c % 4 * 64 + d) % 256 }

  /** The characters `c` stand for the digits `sextets`. */
  predicate Spells(c: string, sextets: seq<nat>) {
    |c| == |sextets| && forall i :: 0 <= i < |c| ==> Inverse(c[i]) == sextets[i] < 64
  }

  lemma SpelledSextets(c: string, sextets: seq<nat>)
    requires Spells(c, sextets)
    ensures forall i :: 0 <= i < |c| ==> InAlphabet(c[i])
    ensures Sextets(c) == sextets
  {
  }

  lemma SpellsAppend(c: string, s: seq<nat>, d: string, t: seq<nat>)
    requires Spells(c, s) && Spells(d, t)
    ensures Spells(c + d, s + t)
  {
  }

  /** So far, the characters `c` carry the bytes `b`, a whole number of groups. */
  ghost predicate Carries(b: seq<byte>, c: string, sextets: seq<nat>) {
    Spells(c, sextets) && Numeral(64, sextets) == Numeral(256, b)
  }

  ghost predicate Carried(b: seq<byte>, c: string) {
    exists sextets :: Carries(b, c, sextets)
  }

  lemma CarryGroup(b: seq<byte>, c: string, sextets: seq<nat>, x: byte, y: byte, z: byte, d: string)
    requires Carries(b, c, sextets) && Spells(d, GroupSextets(x, y, z))
    ensures Carries(b + [x, y, z], c + d, sextets + GroupSextets(x, y, z))
    ensures Carried(b + [x, y, z], c + d)
  {
    hide Numeral, Spells;
    SpellsAppend(c, sextets, d, GroupSextets(x, y, z));
    var t := GroupSextets(x, y, z);
    AppendBytes(b, x, y, z);
    AppendSextets(sextets, t[0], t[1], t[2], t[3]);
  }

  /** An encoding from its parts. */
  lemma EncodingOf(b: seq<byte>, c: string, sextets: seq<nat>)
    requires |c| == EncodedSize(|b|) && |sextets| + Padding(|b|) == |c|
    requires Spells(c[..|sextets|], sextets)
    requires forall i :: |sextets| <= i < |c| ==> c[i] == '='
    requires Numeral(64, sextets) == Numeral(256, b) * FillWeight(|b|)
    ensures IsEncoding(b, c)
  {
    SpelledSextets(c[..|sextets|], sextets);
    assert forall i :: 0 <= i < |sextets| ==> c[..|sextets|][i] == c[i];
  }

  lemma EncodingWhole(b: seq<byte>, c: string, sextets: seq<nat>)
    requires Carries(b, c, sextets) && |b| % 3 == 0 && |c| == |b| / 3 * 4
    ensures IsEncoding(b, c)
  {
    hide Numeral, IsEncoding;
    assert c[..|sextets|] == c;
    EncodingOf(b, c, sextets);
  }

  lemma EncodingTwoLeft(b: seq<byte>, c: string, sextets: seq<nat>, x: byte, y: byte, d: string)
    requires Carries(b, c, sextets) && |b| % 3 == 0 && |c| == |b| / 3 * 4
    requires |d| == 4 && Spells(d[..3], GroupSextets(x, y, 0)[..3]) && d[3] == '='
    ensures IsEncoding(b + [x, y], c + d)
  {
    hide Numeral, IsEncoding;
    var t := GroupSextets(x, y, 0);
    SpellsAppend(c, sextets, d[..3], t[..3]);
    assert (c + d)[..|c| + 3] == c + d[..3];
    AppendBytes(b, x, y, 0);
    AppendSextets(sextets, t[0], t[1], t[2], 0);
    assert t[..3] == [t[0], t[1], t[2]];
    EncodingOf(b + [x, y], c + d, sextets + t[..3]);
  }

  lemma EncodingOneLeft(b: seq<byte>, c: string, sextets: seq<nat>, x: byte, d: string)
    requires Carries(b, c, sextets) && |b| % 3 == 0 && |c| == |b| / 3 * 4
    requires |d| == 4 && Spells(d[..2], GroupSextets(x, 0, 0)[..2]) && d[2] == d[3] == '='
    ensures IsEncoding(b + [x], c + d)
  {
    hide Numeral, IsEncoding;
    var t := GroupSextets(x, 0, 0);
    SpellsAppend(c, sextets, d[..2], t[..2]);
    assert (c + d)[..|c| + 2] == c + d[..2];
    AppendBytes(b, x, 0, 0);
    AppendSextets(sextets, t[0], t[1], 0, 0);
    assert t[..2] == [t[0], t[1]];
    EncodingOf(b + [x], c + d, sextets + t[..2]);
  }

  /** The decoder's byte formulas undo the encoder's sextet formulas. */
  lemma OctetsOfGroup(s: seq<nat>)
    requires |s| == 4 && forall i :: 0 <= i < 4 ==> s[i] < 64
    ensures GroupSextets(Octet0(s[0], s[1]), Octet1(s[1], s[2]), Octet2(s[2], s[3])) == s
  {
    hide Octet0, Octet1, Octet2;
    OctetValues(s[0], s[1], s[2], s[3]);
    DivModIs(Octet0(s[0], s[1]), 4, s[0], s[1] / 16);
    DivModIs(Octet1(s[1], s[2]), 16, s[1] % 16, s[2] / 4);
    DivModIs(Octet2(s[2], s[3]), 64, s[2] % 4, s[3]);
  }

  lemma OctetValues(a: nat, b: nat, c: nat, d: nat)
    requires a < 64 && b < 64 && c < 64 && d < 64
    ensures Octet0(a, b) == 4 * a + b / 16
    ensures Octet1(b, c) == 16 * (b % 16) + c / 4
    ensures Octet2(c, d) == 64 * (c % 4) + d
  {
  }

  lemma {:induction false} PrefixIs(c: string, n: nat)
    requires n <= |c| && (forall i :: 0 <= i < n ==> InAlphabet(c[i])) && (n < |c| ==> !InAlphabet(c[n]))
    ensures PrefixLength(c) == n
  {
    if n == 0 {
    } else {
      PrefixIs(c[1..], n - 1);
    }
  }

  /** The bytes of an incomplete last group of sextets. */
  function Leftover(s: seq<nat>): seq<byte>
    requires |s| < 4
  {
    if |s| < 2 then [] else if |s| == 2 then [Octet0(s[0], s[1])] else [Octet0(s[0], s[1]), Octet1(s[1], s[2])]
  }

  /** A decoding from its parts: whole groups, then the sextets `t` of an incomplete one. */
  lemma DecodingOf(c: string, b: seq<byte>, n: nat, sextets: seq<nat>, t: seq<nat>)
    requires n + |t| == PrefixLength(c) && n % 4 == 0 && |t| < 4 && |b| == n / 4 * 3
    requires Carries(b, c[..n], sextets) && Spells(c[n..n + |t|], t)
    ensures IsDecoding(c, n + |t|, b + Leftover(t))
  {
    hide Numeral, PrefixLength, DropWeight, Leftover;
    SpellsAppend(c[..n], sextets, c[n..n + |t|], t);
    assert c[..n + |t|] == c[..n] + c[n..n + |t|];
    SpelledSextets(c[..n + |t|], sextets + t);
    LeftoverNumeral(b, sextets, t);
    LeftoverSize(n, t);
  }

  lemma LeftoverSize(n: nat, t: seq<nat>)
    requires n % 4 == 0 && |t| < 4
    ensures n / 4 * 3 + |Leftover(t)| == 3 * (n + |t|) / 4
    ensures DropWeight(n + |t|) == DropWeight(|t|)
  {
    var q := n / 4;
    assert n == 4 * q;
    DivModIs(3 * (n + |t|), 4, 3 * q + |Leftover(t)|, 3 * |t| - 4 * |Leftover(t)|);
    DivModIs(n + |t|, 4, q, |t|);
  }

  lemma LeftoverNumeral(b: seq<byte>, s: seq<nat>, t: seq<nat>)
    requires |t| < 4 && (forall i :: 0 <= i < |t| ==> t[i] < 64) && Numeral(64, s) == Numeral(256, b)
    ensures Numeral(256, b + Leftover(t)) == Numeral(64, s + t) / DropWeight(|t|)
  {
    hide Numeral, Octet0, Octet1, DropWeight;
    DropWeights();
    if |t| == 0 {
      assert b + Leftover(t) == b && s + t == s;
    } else if |t| == 1 {
      assert b + Leftover(t) == b && t == [t[0]];
      AppendSextets(s, t[0], 0, 0, 0);
      DivModIs(Numeral(64, s) * 64 + t[0], 64, Numeral(64, s), t[0]);
    } else if |t| == 2 {
      assert t == [t[0], t[1]];
      LeftoverOfTwo(b, s, t[0], t[1]);
    } else {
      assert t == [t[0], t[1], t[2]];
      LeftoverOfThree(b, s, t[0], t[1], t[2]);
    }
  }

  lemma DropWeights()
    ensures DropWeight(0) == 1 && DropWeight(1) == 64 && DropWeight(2) == 16 && DropWeight(3) == 4
  {
  }

  lemma LeftoverOfTwo(b: seq<byte>, s: seq<nat>, x: nat, y: nat)
    requires x < 64 && y < 64 && Numeral(64, s) == Numeral(256, b)
    ensures Numeral(256, b + [Octet0(x, y)]) == Numeral(64, s + [x, y]) / 16
  {
    hide Numeral, Octet0;
    OctetValues(x, y, 0, 0);
    AppendSextets(s, x, y, 0, 0);
    AppendBytes(b, Octet0(x, y), 0, 0);
    DropFour(Numeral(64, s) * 64 + x, y);
  }

  lemma LeftoverOfThree(b: seq<byte>, s: seq<nat>, x: nat, y: nat, z: nat)
    requires x < 64 && y < 64 && z < 64 && Numeral(64, s) == Numeral(256, b)
    ensures Numeral(256, b + [Octet0(x, y), Octet1(y, z)]) == Numeral(64, s + [x, y, z]) / 4
  {
    hide Numeral, Octet0, Octet1;
    OctetValues(x, y, z, 0);
    AppendSextets(s, x, y, z, 0);
    AppendBytes(b, Octet0(x, y), Octet1(y, z), 0);
    DropTwo(Numeral(64, s) * 4096 + x * 64 + y, z);
  }

  lemma DropFour(n: nat, y: nat)
    ensures (n * 64 + y) / 16 == n * 4 + y / 16
  {
    DivModIs(n * 64 + y, 16, n * 4 + y / 16, y % 16);
  }

  lemma DropTwo(n: nat, z: nat)
    ensures (n * 64 + z) / 4 == n * 16 + z / 4
  {
    DivModIs(n * 64 + z, 4, n * 16 + z / 4, z % 4);
  }

  // ---- The codec ----

  /** `*out++ = ...`, four times. */
  method Put4(dest: array<char>, out: nat, d: string)
    requires |d| == 4 && out + 4 <= dest.Length
    modifies dest
    ensures dest[..out + 4] == old(dest[..out]) + d
    ensures forall k :: out + 4 <= k < dest.Length ==> dest[k] == old(dest[k])
  {
    dest[out] := d[0];
    dest[out + 1] := d[1];
    dest[out + 2] := d[2];
    dest[out + 3] := d[3];
  }

  /** After `g` whole groups of `input`, `c` has been written. */
  ghost predicate Encoding(input: seq<byte>, g: nat, c: string) {
    3 * g <= |input| && |c| == 4 * g && Carried(input[..3 * g], c)
  }

  lemma EncodingStarts(input: seq<byte>)
    ensures Encoding(input, 0, "")
  {
    assert input[..0] == [];
    NothingCarried();
  }

  lemma EncodingSteps(input: seq<byte>, g: nat, c: string, d: string)
    requires 3 * g + 3 <= |input| && Encoding(input, g, c)
    requires Spells(d, GroupSextets(input[3 * g], input[3 * g + 1], input[3 * g + 2]))
    ensures Encoding(input, g + 1, c + d)
  {
    hide Carries, GroupSextets;
    var sextets :| Carries(input[..3 * g], c, sextets);
    CarryGroup(input[..3 * g], c, sextets, input[3 * g], input[3 * g + 1], input[3 * g + 2], d);
    assert input[..3 * (g + 1)] == input[..3 * g] + [input[3 * g], input[3 * g + 1], input[3 * g + 2]];
  }

  /** The last characters, by how many bytes are left. */
  lemma EncodingEnds(input: seq<byte>, g: nat, c: string, d: string)
    requires g == |input| / 3 && Encoding(input, g, c)
    requires match |input| % 3
             case 2 => |d| == 4 && Spells(d[..3], GroupSextets(input[3 * g], input[3 * g + 1], 0)[..3]) && d[3] == '='
             case 1 => |d| == 4 && Spells(d[..2], GroupSextets(input[3 * g], 0, 0)[..2]) && d[2] == d[3] == '='
             case _ => d == ""
    ensures IsEncoding(input, c + d)
  {
    hide Carries, GroupSextets, IsEncoding, Spells;
    var sextets :| Carries(input[..3 * g], c, sextets);
    assert |input| == 3 * g + |input| % 3;
    if |input| % 3 == 0 {
      assert input[..3 * g] == input && c + d == c;
      EncodingWhole(input, c, sextets);
    } else if |input| % 3 == 1 {
      assert input == input[..3 * g] + [input[3 * g]];
      EncodingOneLeft(input[..3 * g], c, sextets, input[3 * g], d);
    } else {
      assert input == input[..3 * g] + [input[3 * g], input[3 * g + 1]];
      EncodingTwoLeft(input[..3 * g], c, sextets, input[3 * g], input[3 * g + 1], d);
    }
  }

  method Encode(dest: array<char>, src: array<byte>, len: nat) returns (written: nat)
    requires len <= src.Length && EncodedSize(len) <= dest.Length
    modifies dest
    ensures written == EncodedSize(len)
    ensures IsEncoding(src[..len], dest[..written])
    ensures forall k :: written <= k < dest.Length ==> dest[k] == old(dest[k])
  {
    hide Letter, Inverse, IsEncoding, Encoding, EncodedSize;
    EncodedGroups(len);
    var out, in_ := 0, 0;
    ghost var input := src[..len];
    ghost var g: nat := 0;
    EncodingStarts(input);
    var n := len / 3;
    while n != 0
      invariant 0 <= n && g + n == len / 3 && in_ == 3 * g && out == 4 * g
      invariant Encoding(input, g, dest[..out])
      invariant forall k :: out <= k < dest.Length ==> dest[k] == old(dest[k])
    {
      n := n - 1;
      var x, y, z: byte := src[in_], src[in_ + 1], src[in_ + 2];
      var d := [Letter(x / 4), Letter(x % 4 * 16 + y / 16), Letter(z / 64 + y % 16 * 4), Letter(z % 64)];
      EncodingSteps(input, g, dest[..out], d);
      Put4(dest, out, d);
      out := out + 4;
      in_ := in_ + 3;
      g := g + 1;
    }
    written := EncodeRest(dest, src, len, out, in_);
  }

  /** The switch after the loop: what fewer than three bytes are written as. */
  method EncodeRest(dest: array<char>, src: array<byte>, len: nat, out: nat, in_: nat) returns (written: nat)
    requires len <= src.Length && EncodedSize(len) <= dest.Length
    requires in_ == 3 * (len / 3) && out == 4 * (len / 3) && Encoding(src[..len], len / 3, dest[..out])
    modifies dest
    ensures written == EncodedSize(len)
    ensures IsEncoding(src[..len], dest[..written])
    ensures forall k :: written <= k < dest.Length ==> dest[k] == old(dest[k])
  {
    hide Letter, Inverse, IsEncoding, Encoding, EncodedSize;
    EncodedGroups(len);
    ghost var input, g := src[..len], len / 3;
    written := out;
    match len % 3 {
      case 2 =>
        var x, y: byte := src[in_], src[in_ + 1];
        var d := [Letter(x / 4), Letter(x % 4 * 16 + y / 16), Letter(y % 16 * 4), '='];
        EncodingEnds(input, g, dest[..out], d);
        Put4(dest, out, d);
        written := written + 4;
      case 1 =>
        var x: byte := src[in_];
        var d := [Letter(x / 4), Letter(x % 4 * 16), '=', '='];
        EncodingEnds(input, g, dest[..out], d);
        Put4(dest, out, d);
        written := written + 4;
      case _ =>
        EncodingEnds(input, g, dest[..out], "");
        assert dest[..out] + "" == dest[..out];
    }
  }

  lemma NothingCarried()
    ensures Carried([], "")
  {
    assert Carries([], "", []);
  }

  lemma PadOutsideAlphabet()
    ensures !InAlphabet('=')
  {
  }

  /** The three bytes of a group; the ones past the sextets read so far are never written out. */
  method Octets(c3: array<byte>, c4: array<byte>)
    requires c3.Length == 3 && c4.Length == 4 && c3 != c4
    modifies c3
    ensures c3[..] == [Octet0(c4[0], c4[1]), Octet1(c4[1], c4[2]), Octet2(c4[2], c4[3])]
  {
    c3[0] := Octet0(c4[0], c4[1]);
    c3[1] := Octet1(c4[1], c4[2]);
    c3[2] := Octet2(c4[2], c4[3]);
  }

  /** `*out++ = c3[j]` for the first `count` bytes. */
  method PutBytes(dest: array<byte>, out: nat, c3: array<byte>, count: nat)
    requires count <= c3.Length && out + count <= dest.Length && dest != c3
    modifies dest
    ensures dest[..out + count] == old(dest[..out]) + c3[..count]
    ensures forall k :: out + count <= k < dest.Length ==> dest[k] == old(dest[k])
  {
    var j := 0;
    while j < count
      invariant 0 <= j <= count
      invariant dest[..out + j] == old(dest[..out]) + c3[..j]
      invariant forall k :: out + j <= k < dest.Length ==> dest[k] == old(dest[k])
    {
      dest[out + j] := c3[j];
      j := j + 1;
    }
  }

  /** A complete group: its three bytes are written out. */
  method Flush(dest: array<byte>, out: nat, c3: array<byte>, c4: array<byte>) returns (end: nat)
    requires c3.Length == 3 && c4.Length == 4 && c3 != c4 && dest != c3 && dest != c4
    requires out + 3 <= dest.Length
    modifies dest, c3
    ensures end == out + 3
    ensures dest[..end] == old(dest[..out]) + [Octet0(c4[0], c4[1]), Octet1(c4[1], c4[2]), Octet2(c4[2], c4[3])]
    ensures forall k :: end <= k < dest.Length ==> dest[k] == old(dest[k])
  {
    hide Octet0, Octet1, Octet2;
    Octets(c3, c4);
    assert c3[..3] == c3[..];
    PutBytes(dest, out, c3, 3);
    return out + 3;
  }

  /** What an incomplete group of `i` sextets still yields. */
  method PutRest(dest: array<byte>, out: nat, c3: array<byte>, c4: array<byte>, i: nat) returns (end: nat)
    requires c3.Length == 3 && c4.Length == 4 && c3 != c4 && dest != c3 && dest != c4
    requires i < 4 && out + |Leftover(c4[..i])| <= dest.Length
    modifies dest, c3
    ensures end <= dest.Length
    ensures dest[..end] == old(dest[..out]) + Leftover(c4[..i])
    ensures forall k :: end <= k < dest.Length ==> dest[k] == old(dest[k])
  {
    hide Octet0, Octet1, Octet2;
    if i == 0 {
      return out;
    }
    Octets(c3, c4);
    PutBytes(dest, out, c3, i - 1);
    assert c3[..i - 1] == Leftover(c4[..i]);
    return out + i - 1;
  }

  /** After `in_` alphabet characters, `out` has been written and `pending` waits in `c4`. */
  ghost predicate Decoding(text: string, in_: nat, out: seq<byte>, pending: seq<nat>) {
    && |pending| <= in_ <= |text| && (in_ - |pending|) % 4 == 0
    && |out| == (in_ - |pending|) / 4 * 3
    && (forall k :: 0 <= k < in_ ==> InAlphabet(text[k]))
    && Spells(text[in_ - |pending|..in_], pending)
    && Carried(out, text[..in_ - |pending|])
  }

  lemma DecodingStarts(text: string)
    ensures Decoding(text, 0, [], [])
  {
    assert text[..0] == "";
    NothingCarried();
  }

  lemma DecodingReads(text: string, in_: nat, out: seq<byte>, pending: seq<nat>)
    requires in_ < |text| && InAlphabet(text[in_]) && Decoding(text, in_, out, pending)
    ensures Decoding(text, in_ + 1, out, pending + [Inverse(text[in_])])
  {
    hide Inverse, Carries;
  }

  lemma DecodingFlushes(text: string, in_: nat, out: seq<byte>, s: seq<nat>)
    requires |s| == 4 && Decoding(text, in_, out, s)
    ensures Decoding(text, in_, out + [Octet0(s[0], s[1]), Octet1(s[1], s[2]), Octet2(s[2], s[3])], [])
  {
    hide Inverse, Carries, Octet0, Octet1, Octet2, GroupSextets;
    var n := in_ - 4;
    var sextets :| Carries(out, text[..n], sextets);
    OctetsOfGroup(s);
    CarryGroup(out, text[..n], sextets, Octet0(s[0], s[1]), Octet1(s[1], s[2]), Octet2(s[2], s[3]), text[n..in_]);
    assert text[..n] + text[n..in_] == text[..in_];
  }

  lemma DecodingEnds(text: string, in_: nat, out: seq<byte>, pending: seq<nat>)
    requires |pending| < 4 && Decoding(text, in_, out, pending)
    requires in_ < |text| ==> !InAlphabet(text[in_])
    ensures IsDecoding(text, in_, out + Leftover(pending)) && in_ == PrefixLength(text)
    ensures |out| + |Leftover(pending)| == 3 * in_ / 4
  {
    hide Inverse, Carries, PrefixLength, IsDecoding, Leftover, Spells;
    PrefixIs(text, in_);
    var n := in_ - |pending|;
    var sextets :| Carries(out, text[..n], sextets);
    assert text[n..in_] == text[n..n + |pending|];
    DecodingOf(text, out, n, sextets, pending);
    DecodedLength(text, in_, out + Leftover(pending));
  }

  lemma DecodingRoom(text: string, in_: nat, out: seq<byte>, pending: seq<nat>)
    requires Decoding(text, in_, out, pending)
    ensures |out| == 3 * (in_ - |pending|) / 4
    ensures |pending| == 4 ==> |out| + 3 <= 3 * PrefixLength(text) / 4
  {
    hide Inverse, Carried;
    assert in_ <= PrefixLength(text);
    assert in_ - |pending| == 4 * ((in_ - |pending|) / 4);
  }

  /** The destination needs room for what the alphabet prefix holds, and for no more. */
  method Decode(dest: array<byte>, src: array<char>, len: nat) returns (written: nat, consumed: nat)
    requires len <= src.Length && 3 * PrefixLength(src[..len]) / 4 <= dest.Length
    modifies dest
    ensures written <= dest.Length && consumed <= len
    ensures IsDecoding(src[..len], consumed, dest[..written])
    ensures forall k :: written <= k < dest.Length ==> dest[k] == old(dest[k])
  {
    hide Inverse, IsDecoding, Decoding, PrefixLength, Octet0, Octet1, Octet2, Leftover;
    var out, in_ := 0, 0;
    var c3, c4 := new byte[3], new byte[4];
    var i := 0;
    var n := len;
    ghost var text := src[..len];
    DecodingStarts(text);
    while n != 0 && src[in_] != '='
      invariant in_ + n == len && 0 <= in_ && 0 <= i < 4 && 0 <= out <= dest.Length
      invariant Decoding(text, in_, dest[..out], c4[..i])
      invariant forall k :: out <= k < dest.Length ==> dest[k] == old(dest[k])
    {
      var v := Inverse(src[in_]);
      if v == -1 {
        break;
      }
      ghost var before := c4[..i];
      DecodingReads(text, in_, dest[..out], before);
      n := n - 1;
      in_ := in_ + 1;
      c4[i] := v;
      i := i + 1;
      assert c4[..i] == before + [v];
      if i == 4 {
        assert c4[..] == c4[..4];
        DecodingRoom(text, in_, dest[..out], c4[..]);
        DecodingFlushes(text, in_, dest[..out], c4[..]);
        out := Flush(dest, out, c3, c4);
        i := 0;
        assert c4[..0] == [];
      }
    }
    PadOutsideAlphabet();
    DecodingEnds(text, in_, dest[..out], c4[..i]);
    out := PutRest(dest, out, c3, c4, i);
    return out, in_;
  }

  // ---- What the format guarantees ----

  /** The alphabet characters of an encoding are all but its padding. */
  lemma EncodingPrefix(b: seq<byte>, c: string)
    requires IsEncoding(b, c)
    ensures PrefixLength(c) == |c| - Padding(|b|)
    ensures 3 * PrefixLength(c) / 4 == |b|
    ensures FillWeight(|b|) == DropWeight(PrefixLength(c))
  {
    hide InAlphabet, Inverse, Numeral, PrefixLength, Sextets, FillWeight, DropWeight, EncodedSize, Padding;
    PadOutsideAlphabet();
    PrefixIs(c, |c| - Padding(|b|));
    PrefixSize(|b|);
  }

  lemma EncodedGroups(m: nat)
    ensures m == 3 * (m / 3) + m % 3
    ensures EncodedSize(m) == 4 * (m / 3) + if m % 3 == 0 then 0 else 4
  {
    DivModIs(m + 2, 3, m / 3 + (if m % 3 == 0 then 0 else 1), if m % 3 == 0 then 2 else m % 3 - 1);
  }

  lemma PrefixSize(m: nat)
    ensures 3 * (EncodedSize(m) - Padding(m)) / 4 == m
    ensures EncodedSize(m) >= Padding(m)
    ensures FillWeight(m) == DropWeight(EncodedSize(m) - Padding(m))
  {
    hide EncodedSize;
    EncodedGroups(m);
  }

  lemma ExactDivision(x: nat, n: nat)
    ensures x * FillWeight(n) / FillWeight(n) == x
  {
  }

  /** Decoding undoes encoding, and consumes everything but the padding. */
  lemma RoundTrip(b: seq<byte>, c: string, consumed: nat, out: seq<byte>)
    requires IsEncoding(b, c) && IsDecoding(c, consumed, out)
    ensures out == b && consumed == |c| - Padding(|b|)
  {
    hide Numeral, Sextets, PrefixLength, FillWeight, DropWeight;
    EncodingPrefix(b, c);
    ExactDivision(Numeral(256, b), |b|);
    NumeralInjective(256, out, b);
  }

  /** The encoding of given bytes is one string, and the decoding of given characters one result. */
  lemma EncodingUnique(b: seq<byte>, c: string, d: string)
    requires IsEncoding(b, c) && IsEncoding(b, d)
    ensures c == d
  {
    hide Numeral, FillWeight, Inverse, Padding, EncodedSize;
    var n := |c| - Padding(|b|);
    NumeralInjective(64, Sextets(c[..n]), Sextets(d[..n]));
    forall i | 0 <= i < n
      ensures c[i] == d[i]
    {
      assert Sextets(c[..n])[i] == Sextets(d[..n])[i];
      InverseInjective(c[i], d[i]);
    }
  }

  lemma InverseInjective(c: char, d: char)
    requires InAlphabet(c) && Inverse(c) == Inverse(d)
    ensures c == d
  {
  }

  /** The alphabet is exactly what the inverse table accepts. */
  lemma LetterOfInverse(c: char)
    requires InAlphabet(c)
    ensures Letter(Inverse(c)) == c
  {
    InverseInjective(c, Letter(Inverse(c)));
  }

  lemma DecodingUnique(c: string, m: nat, n: nat, out: seq<byte>, out': seq<byte>)
    requires IsDecoding(c, m, out) && IsDecoding(c, n, out')
    ensures m == n && out == out'
  {
    hide Numeral, Sextets, PrefixLength, DropWeight;
    NumeralInjective(256, out, out');
  }

  /** Different bytes never share an encoding. */
  lemma EncodingInjective(b: seq<byte>, b': seq<byte>, c: string)
    requires IsEncoding(b, c) && IsEncoding(b', c)
    ensures b == b'
  {
    hide Numeral, Sextets, PrefixLength, Inverse, FillWeight, DropWeight;
    EncodingPrefix(b, c);
    EncodingPrefix(b', c);
    ExactDivision(Numeral(256, b), |b|);
    ExactDivision(Numeral(256, b'), |b|);
    NumeralInjective(256, b, b');
  }

  /** A caller's test for canonical text: whole groups, a last group of two to four sextets with no
      stray low bits, and exactly the padding that completes it. */
  predicate Canonical(c: string) {
    var n := PrefixLength(c);
    && |c| == (n + 3) / 4 * 4
    && n % 4 != 1
    && (forall i :: n <= i < |c| ==> c[i] == '=')
    && (n > 0 ==> Inverse(c[n - 1]) % DropWeight(n) == 0)
  }

  lemma LowBits(x: nat, last: nat, n: nat)
    ensures (x * 64 + last) % DropWeight(n) == last % DropWeight(n)
  {
    var w := DropWeight(n);
    assert x * 64 == w * (x * (64 / w));
    ModMultiple(w, x * (64 / w), last);
  }

  lemma LastSextet(c: string, n: nat)
    requires n <= |c| && (forall i :: 0 <= i < n ==> InAlphabet(c[i]))
    ensures Numeral(64, Sextets(c[..n])) % DropWeight(n) == 0 <==> (n > 0 ==> Inverse(c[n - 1]) % DropWeight(n) == 0)
  {
    if n > 0 {
      var s := Sextets(c[..n]);
      LowBits(Numeral(64, s[..n - 1]), s[n - 1], n);
    }
  }

  lemma EncodingIsCanonical(b: seq<byte>, c: string)
    requires IsEncoding(b, c)
    ensures Canonical(c)
  {
    hide Numeral, Sextets, PrefixLength, Inverse, DropWeight;
    EncodingPrefix(b, c);
    var n := PrefixLength(c);
    CanonicalSize(|b|);
    ModMultiple(FillWeight(|b|), Numeral(256, b), 0);
    LastSextet(c, n);
  }

  lemma CanonicalSize(m: nat)
    ensures var n := EncodedSize(m) - Padding(m); n >= 0 && EncodedSize(m) == (n + 3) / 4 * 4 && n % 4 != 1
  {
    hide EncodedSize;
    EncodedGroups(m);
  }

  lemma DecodedSizes(n: nat)
    requires n % 4 != 1
    ensures EncodedSize(3 * n / 4) == (n + 3) / 4 * 4
    ensures Padding(3 * n / 4) == (n + 3) / 4 * 4 - n
    ensures FillWeight(3 * n / 4) == DropWeight(n)
  {
    var q, r := n / 4, n % 4;
    assert n == 4 * q + r;
    assert 3 * n / 4 == 3 * q + (if r == 0 then 0 else r - 1);
  }

  lemma CanonicalIsEncoding(c: string, n: nat, out: seq<byte>)
    requires Canonical(c) && IsDecoding(c, n, out)
    ensures IsEncoding(out, c)
  {
    hide Numeral, Sextets, PrefixLength, Inverse, DropWeight, FillWeight, EncodedSize, Padding;
    DecodedSizes(n);
    LastSextet(c, n);
    DropWeightPositive(n);
    NothingDropped(Numeral(64, Sextets(c[..n])), DropWeight(n));
  }

  lemma NothingDropped(x: nat, w: nat)
    requires w > 0 && x % w == 0
    ensures x / w * w == x
  {
  }

  lemma DropWeightPositive(n: nat)
    ensures DropWeight(n) > 0
  {
  }

  /** Re-encoding what was decoded gives the text back exactly when it was canonical. */
  lemma ReencodeCanonical(c: string, consumed: nat, out: seq<byte>, e: string)
    requires IsDecoding(c, consumed, out) && IsEncoding(out, e)
    ensures e == c <==> Canonical(c)
  {
    hide IsDecoding, IsEncoding, Canonical;
    if e == c {
      EncodingIsCanonical(out, c);
    }
    if Canonical(c) {
      CanonicalIsEncoding(c, consumed, out);
      EncodingUnique(out, c, e);
    }
  }

  /** `decoded_size` is enough room exactly when the alphabet prefix reaches at most one character into
      an incomplete last group; for whole groups it always is. */
  lemma DecodedSizeSuffices(c: string, consumed: nat, out: seq<byte>)
    requires IsDecoding(c, consumed, out)
    ensures |out| <= DecodedSize(|c|) <==> PrefixLength(c) <= |c| / 4 * 4 + 1
    ensures |c| % 4 == 0 ==> |out| <= DecodedSize(|c|)
    ensures PrefixLength(c) == |c| ==> (|out| == DecodedSize(|c|) <==> |c| % 4 <= 1)
  {
    hide Numeral, Sextets, PrefixLength;
    var q := |c| / 4;
    assert |c| == 4 * q + |c| % 4;
  }

  /** Three letters without padding decode to two bytes, for which `decoded_size` makes no room. */
  lemma UnpaddedTextOverflows(out: seq<byte>, consumed: nat)
    requires IsDecoding("QQQ", consumed, out)
    ensures |out| == 2 && DecodedSize(|"QQQ"|) == 0
  {
    PrefixIs("QQQ", 3);
  }

  // ---- The wrapper ----

  /** The result has `decoded_size` bytes, whatever was written into it. Text for which that is too
      little room makes the source write past the end. */
  method FromBase64String(s: string) returns (dv: array<byte>)
    requires PrefixLength(s) <= |s| / 4 * 4 + 1
    ensures fresh(dv) && dv.Length == DecodedSize(|s|) >= 3 * PrefixLength(s) / 4
    ensures IsDecoding(s, PrefixLength(s), dv[..3 * PrefixLength(s) / 4])
    ensures forall k :: 3 * PrefixLength(s) / 4 <= k < dv.Length ==> dv[k] == 0
  {
    hide IsDecoding, PrefixLength;
    RoomForPrefix(|s|, PrefixLength(s));
    dv := new byte[DecodedSize(|s|)](_ => 0);
    var src := new char[|s|](i requires 0 <= i < |s| => s[i]);
    assert src[..|s|] == s;
    var written, consumed := Decode(dv, src, |s|);
    DecodedLength(s, consumed, dv[..written]);
  }

  lemma RoomForPrefix(len: nat, n: nat)
    requires n <= len && n <= len / 4 * 4 + 1
    ensures 3 * n / 4 <= DecodedSize(len)
  {
    assert len == 4 * (len / 4) + len % 4;
  }

  lemma DecodedLength(c: string, consumed: nat, out: seq<byte>)
    requires IsDecoding(c, consumed, out)
    ensures consumed == PrefixLength(c) && |out| == 3 * consumed / 4
  {
  }

  /** Decoding an encoding into such a result has room, and leaves as many zero bytes after the bytes as
      there are padding characters: the bytes come back alone exactly when their number is a multiple
      of three. */
  lemma WrapperKeepsPadding(b: seq<byte>, c: string, dv: seq<byte>)
    requires IsEncoding(b, c) && |dv| == DecodedSize(|c|)
    requires 3 * PrefixLength(c) / 4 <= |dv| && IsDecoding(c, PrefixLength(c), dv[..3 * PrefixLength(c) / 4])
    ensures PrefixLength(c) <= |c| / 4 * 4 + 1
    ensures dv[..|b|] == b && |dv| == |b| + Padding(|b|)
    ensures dv == b <==> |b| % 3 == 0
  {
    hide IsEncoding, IsDecoding, PrefixLength, EncodedSize;
    EncodingPrefix(b, c);
    RoundTrip(b, c, PrefixLength(c), dv[..3 * PrefixLength(c) / 4]);
    EncodedGroups(|b|);
    EncodingSize(b, c);
    var g := |b| / 3;
    DivModIs(|c|, 4, if |b| % 3 == 0 then g else g + 1, 0);
    if |b| % 3 == 0 {
      assert dv == dv[..|b|];
    }
  }

  lemma EncodingSize(b: seq<byte>, c: string)
    requires IsEncoding(b, c)
    ensures |c| == EncodedSize(|b|)
  {
  }
}

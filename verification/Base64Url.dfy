/** `_b64u` of `inc/adapters/oidc/signing_keys.py`: an integer as minimal big-endian octets in
    unpadded base64url (sections 2 and 6.3.1 of RFC 7518, section 5 of RFC 4648). */
module Base64Url {
  import opened Wrappers

  type Byte = b: int | 0 <= b < 256
  type Sextet = v: int | 0 <= v < 64

  // ---------------------------------------------------------------- octets

  /** `n.bit_length()`. */
  function BitLength(n: nat): nat {
    if n == 0 then 0 else 1 + BitLength(n / 2)
  }

  function OctetCount(n: nat): nat {
    (BitLength(n) + 7) / 8
  }

  /** `n` fits in that many octets; otherwise `to_bytes` overflows. */
  predicate Fits(n: nat, length: nat) {
    if length == 0 then n == 0 else Fits(n / 256, length - 1)
  }

  /** `n.to_bytes(length, "big")`. */
  function ToBytes(n: nat, length: nat): seq<Byte>
    requires Fits(n, length)
  {
    if length == 0 then [] else ToBytes(n / 256, length - 1) + [n % 256]
  }

  function BigEndian(bytes: seq<Byte>): nat {
    if bytes == [] then 0 else 256 * BigEndian(bytes[..|bytes| - 1]) + bytes[|bytes| - 1]
  }

  /** One octet more is eight bits more: the count (bit_length + 7) // 8 follows the octets. */
  lemma OctetByOctet(n: nat)
    requires n > 0
    ensures OctetCount(n) == 1 + OctetCount(n / 256)
  {
    var n1 := n / 2;
    var n2 := n1 / 2;
    var n3 := n2 / 2;
    var n4 := n3 / 2;
    var n5 := n4 / 2;
    var n6 := n5 / 2;
    var n7 := n6 / 2;
    var n8 := n7 / 2;
    assert n8 == n / 256;
    assert BitLength(n) == 1 + BitLength(n1);
    assert n1 > 0 ==> BitLength(n1) == 1 + BitLength(n2);
    assert n2 > 0 ==> BitLength(n2) == 1 + BitLength(n3);
    assert n3 > 0 ==> BitLength(n3) == 1 + BitLength(n4);
    assert n4 > 0 ==> BitLength(n4) == 1 + BitLength(n5);
    assert n5 > 0 ==> BitLength(n5) == 1 + BitLength(n6);
    assert n6 > 0 ==> BitLength(n6) == 1 + BitLength(n7);
    assert n7 > 0 ==> BitLength(n7) == 1 + BitLength(n8);
    assert BitLength(0) == 0;
  }

  lemma {:induction false} OctetsFit(n: nat)
    ensures Fits(n, OctetCount(n))
    decreases n
  {
    if n > 0 {
      OctetByOctet(n);
      OctetsFit(n / 256);
    }
  }

  function Octets(n: nat): seq<Byte> {
    OctetsFit(n);
    ToBytes(n, OctetCount(n))
  }

  lemma {:induction false} OctetsMeanNumber(n: nat, length: nat)
    requires Fits(n, length)
    ensures |ToBytes(n, length)| == length && BigEndian(ToBytes(n, length)) == n
  {
    if length > 0 {
      OctetsMeanNumber(n / 256, length - 1);
      assert ToBytes(n, length)[..length - 1] == ToBytes(n / 256, length - 1);
    }
  }

  lemma {:induction false} NoLeadingZero(n: nat)
    requires n > 0
    ensures Octets(n) != [] && Octets(n)[0] != 0
    decreases n
  {
    OctetByOctet(n);
    OctetsFit(n);
    OctetsFit(n / 256);
    assert Octets(n) == Octets(n / 256) + [n % 256];
    if n >= 256 {
      NoLeadingZero(n / 256);
    } else {
      assert BitLength(0) == 0 && Octets(0) == [];
    }
  }

  /** No shorter row of octets means the same number. */
  lemma {:induction false} OctetsAreFewest(bytes: seq<Byte>)
    ensures OctetCount(BigEndian(bytes)) <= |bytes|
  {
    if bytes != [] {
      var front := bytes[..|bytes| - 1];
      OctetsAreFewest(front);
      var n := BigEndian(bytes);
      assert n / 256 == BigEndian(front);
      if n > 0 {
        OctetByOctet(n);
      }
    }
  }

  // ---------------------------------------------------------------- base64url

  /** The URL-safe alphabet: A-Z, a-z, 0-9, then `-` and `_`. */
  function SextetChar(v: Sextet): (c: char)
    ensures c != '='
  {
    if v < 26 then (v + 65) as char
    else if v < 52 then (v + 71) as char
    else if v < 62 then (v - 4) as char
    else if v == 62 then '-' else '_'
  }

  /** The place of a character in the alphabet. */
  function CharSextet(c: char): Option<Sextet> {
    if 'A' <= c <= 'Z' then Some(c as int - 65)
    else if 'a' <= c <= 'z' then Some(c as int - 71)
    else if '0' <= c <= '9' then Some(c as int + 4)
    else if c == '-' then Some(62)
    else if c == '_' then Some(63)
    else None
  }

  lemma SextetRoundTrip(v: Sextet)
    ensures CharSextet(SextetChar(v)) == Some(v)
  {
  }

  lemma CharRoundTrip(c: char)
    requires CharSextet(c).Some?
    ensures SextetChar(CharSextet(c).value) == c
  {
  }

  function Chars(sextets: seq<Sextet>): string {
    if sextets == [] then [] else [SextetChar(sextets[0])] + Chars(sextets[1..])
  }

  function Values(s: string): Option<seq<Sextet>> {
    if s == [] then Some([])
    else if CharSextet(s[0]).None? || Values(s[1..]).None? then None
    else Some([CharSextet(s[0]).value] + Values(s[1..]).value)
  }

  function HighSix(a: int): Sextet
    requires 0 <= a < 256
  {
    a / 4
  }

  function TwoAndFour(a: int, b: int): Sextet
    requires 0 <= a < 256 && 0 <= b < 256
  {
    a % 4 * 16 + b / 16
  }

  function FourAndTwo(b: int, c: int): Sextet
    requires 0 <= b < 256 && 0 <= c < 256
  {
    b % 16 * 4 + c / 64
  }

  function LowSix(c: int): Sextet
    requires 0 <= c < 256
  {
    c % 64
  }

  /** Three octets are four sextets; a last one or two octets are filled up with zero bits. */
  function Sextets(bytes: seq<Byte>): seq<Sextet> {
    if bytes == [] then []
    else if |bytes| == 1 then [HighSix(bytes[0]), TwoAndFour(bytes[0], 0)]
    else if |bytes| == 2 then [HighSix(bytes[0]), TwoAndFour(bytes[0], bytes[1]), FourAndTwo(bytes[1], 0)]
    else
      [HighSix(bytes[0]), TwoAndFour(bytes[0], bytes[1]), FourAndTwo(bytes[1], bytes[2]), LowSix(bytes[2])]
      + Sextets(bytes[3..])
  }

  /** Four sextets are three octets; two or three more are one or two octets, and the bits they do not
      need must be zero. */
  function OctetsFrom(v: seq<Sextet>): Option<seq<Byte>> {
    if v == [] then Some([])
    else if |v| == 1 then None
    else if |v| == 2 then (if v[1] % 16 == 0 then Some([First(v[0], v[1])]) else None)
    else if |v| == 3 then (if v[2] % 4 == 0 then Some([First(v[0], v[1]), Second(v[1], v[2])]) else None)
    else match OctetsFrom(v[4..])
      case None => None
      case Some(rest) => Some([First(v[0], v[1]), Second(v[1], v[2]), Third(v[2], v[3])] + rest)
  }

  function First(a: int, b: int): Byte
    requires 0 <= a < 64 && 0 <= b < 64
  {
    a * 4 + b / 16
  }

  function Second(b: int, c: int): Byte
    requires 0 <= b < 64 && 0 <= c < 64
  {
    b % 16 * 16 + c / 4
  }

  function Third(c: int, d: int): Byte
    requires 0 <= c < 64 && 0 <= d < 64
  {
    c % 4 * 64 + d
  }

  /** `urlsafe_b64encode`, with its padding. */
  function Encode(bytes: seq<Byte>): string {
    Chars(Sextets(bytes)) + (if |bytes| % 3 == 1 then "==" else if |bytes| % 3 == 2 then "=" else "")
  }

  /** `rstrip(b"=")`. */
  function WithoutPadding(s: string): string {
    if s != [] && s[|s| - 1] == '=' then WithoutPadding(s[..|s| - 1]) else s
  }

  function B64u(n: nat): string {
    WithoutPadding(Encode(Octets(n)))
  }

  /** Section 5 of RFC 4648, without padding. */
  function Decode(s: string): Option<seq<Byte>> {
    match Values(s)
    case None => None
    case Some(sextets) => OctetsFrom(sextets)
  }

  lemma {:induction false} CharsAreNotPadding(sextets: seq<Sextet>)
    ensures |Chars(sextets)| == |sextets| && '=' !in Chars(sextets)
  {
    if sextets != [] {
      CharsAreNotPadding(sextets[1..]);
    }
  }

  lemma {:induction false} PaddingIsDropped(text: string, padding: string)
    requires '=' !in text && forall i :: 0 <= i < |padding| ==> padding[i] == '='
    ensures WithoutPadding(text + padding) == text
  {
    if padding == [] {
      assert text + padding == text;
    } else {
      assert (text + padding)[..|text + padding| - 1] == text + padding[..|padding| - 1];
      PaddingIsDropped(text, padding[..|padding| - 1]);
    }
  }

  lemma UnpaddedText(bytes: seq<Byte>)
    ensures WithoutPadding(Encode(bytes)) == Chars(Sextets(bytes))
  {
    CharsAreNotPadding(Sextets(bytes));
    PaddingIsDropped(Chars(Sextets(bytes)),
                     if |bytes| % 3 == 1 then "==" else if |bytes| % 3 == 2 then "=" else "");
  }

  lemma {:induction false} ValuesOfChars(sextets: seq<Sextet>)
    ensures Values(Chars(sextets)) == Some(sextets)
  {
    if sextets != [] {
      SextetRoundTrip(sextets[0]);
      ValuesOfChars(sextets[1..]);
      assert Chars(sextets)[0] == SextetChar(sextets[0]);
      assert sextets == [sextets[0]] + sextets[1..];
      assert Chars(sextets)[1..] == Chars(sextets[1..]);
    }
  }

  lemma {:induction false} CharsOfValues(s: string)
    requires Values(s).Some?
    ensures Chars(Values(s).value) == s
  {
    if s != [] {
      CharRoundTrip(s[0]);
      CharsOfValues(s[1..]);
      assert Values(s).value[1..] == Values(s[1..]).value;
    }
  }

  lemma SplitAt16(high: nat, low: nat)
    requires low < 16
    ensures (high * 16 + low) / 16 == high && (high * 16 + low) % 16 == low
  {
  }

  lemma SplitAt4(high: nat, low: nat)
    requires low < 4
    ensures (high * 4 + low) / 4 == high && (high * 4 + low) % 4 == low
  {
  }

  /** Three octets cut into four sextets and put together again. */
  lemma OctetsOfSextets(a: Byte, b: Byte, c: Byte)
    ensures First(HighSix(a), TwoAndFour(a, b)) == a
    ensures Second(TwoAndFour(a, b), FourAndTwo(b, c)) == b
    ensures Third(FourAndTwo(b, c), LowSix(c)) == c
    ensures TwoAndFour(a, 0) % 16 == 0 && FourAndTwo(b, 0) % 4 == 0
  {
    SplitAt16(a % 4, b / 16);
    SplitAt16(a % 4, 0);
    SplitAt4(b % 16, c / 64);
    SplitAt4(b % 16, 0);
  }

  lemma SextetsOfOctets(v0: Sextet, v1: Sextet, v2: Sextet, v3: Sextet)
    ensures HighSix(First(v0, v1)) == v0
    ensures TwoAndFour(First(v0, v1), Second(v1, v2)) == v1
    ensures FourAndTwo(Second(v1, v2), Third(v2, v3)) == v2
    ensures LowSix(Third(v2, v3)) == v3
    ensures v1 % 16 == 0 ==> TwoAndFour(First(v0, v1), 0) == v1
    ensures v2 % 4 == 0 ==> FourAndTwo(Second(v1, v2), 0) == v2
  {
  }

  lemma OctetsOfTwo(v0: Sextet, v1: Sextet)
    requires v1 % 16 == 0
    ensures OctetsFrom([v0, v1]) == Some([First(v0, v1)])
  {
  }

  lemma OctetsOfThree(v0: Sextet, v1: Sextet, v2: Sextet)
    requires v2 % 4 == 0
    ensures OctetsFrom([v0, v1, v2]) == Some([First(v0, v1), Second(v1, v2)])
  {
  }

  lemma ShortGroups(a: Byte, b: Byte)
    ensures OctetsFrom([HighSix(a), TwoAndFour(a, 0)]) == Some([a])
    ensures OctetsFrom([HighSix(a), TwoAndFour(a, b), FourAndTwo(b, 0)]) == Some([a, b])
  {
    OctetsOfSextets(a, 0, 0);
    OctetsOfTwo(HighSix(a), TwoAndFour(a, 0));
    OctetsOfSextets(a, b, 0);
    OctetsOfThree(HighSix(a), TwoAndFour(a, b), FourAndTwo(b, 0));
  }

  lemma FullGroup(a: Byte, b: Byte, c: Byte, rest: seq<Sextet>)
    ensures OctetsFrom([HighSix(a), TwoAndFour(a, b), FourAndTwo(b, c), LowSix(c)] + rest)
            == if OctetsFrom(rest).Some? then Some([a, b, c] + OctetsFrom(rest).value) else None
  {
    OctetsOfSextets(a, b, c);
    var group := [HighSix(a), TwoAndFour(a, b), FourAndTwo(b, c), LowSix(c)];
    assert (group + rest)[4..] == rest;
  }

  lemma {:induction false} OctetsOfItsSextets(bytes: seq<Byte>)
    ensures OctetsFrom(Sextets(bytes)) == Some(bytes)
  {
    if |bytes| == 1 {
      ShortGroups(bytes[0], 0);
      assert bytes == [bytes[0]];
    } else if |bytes| == 2 {
      ShortGroups(bytes[0], bytes[1]);
      assert bytes == [bytes[0], bytes[1]];
    } else if |bytes| >= 3 {
      FullGroup(bytes[0], bytes[1], bytes[2], Sextets(bytes[3..]));
      OctetsOfItsSextets(bytes[3..]);
      assert bytes == [bytes[0], bytes[1], bytes[2]] + bytes[3..];
    }
  }

  lemma {:induction false} SextetsOfItsOctets(v: seq<Sextet>)
    requires OctetsFrom(v).Some?
    ensures Sextets(OctetsFrom(v).value) == v
  {
    if v != [] {
      SextetsOfOctets(v[0], v[1], if |v| > 2 then v[2] else 0, if |v| > 3 then v[3] else 0);
      if |v| > 3 {
        SextetsOfItsOctets(v[4..]);
        assert OctetsFrom(v).value[3..] == OctetsFrom(v[4..]).value;
        assert v == [v[0], v[1], v[2], v[3]] + v[4..];
      }
    }
  }

  /** Decoding an unpadded encoding gives the octets back, and only that text decodes to them. */
  lemma UnpaddedBase64UrlIsABijection(bytes: seq<Byte>, s: string)
    ensures Decode(s) == Some(bytes) <==> s == WithoutPadding(Encode(bytes))
  {
    UnpaddedText(bytes);
    ValuesOfChars(Sextets(bytes));
    OctetsOfItsSextets(bytes);
    if Decode(s) == Some(bytes) {
      CharsOfValues(s);
      SextetsOfItsOctets(Values(s).value);
    }
  }

  // ---------------------------------------------------------------- what the text spells

  /** The alphabet of section 5 of RFC 4648, in its order. */
  lemma AlphabetAt(v: Sextet)
    ensures v < 26 ==> SextetChar(v) == "ABCDEFGHIJKLMNOPQRSTUVWXYZ"[v]
    ensures 26 <= v < 52 ==> SextetChar(v) == "abcdefghijklmnopqrstuvwxyz"[v - 26]
    ensures 52 <= v ==> SextetChar(v) == "0123456789-_"[v - 52]
  {
    LetterAt(v, 65);
    LetterAt(v - 26, 97);
    OtherAt(v - 52);
  }

  lemma LetterAt(i: int, first: int)
    ensures 0 <= i < 26 && first == 65 ==> (first + i) as char == "ABCDEFGHIJKLMNOPQRSTUVWXYZ"[i]
    ensures 0 <= i < 26 && first == 97 ==> (first + i) as char == "abcdefghijklmnopqrstuvwxyz"[i]
  {
  }

  lemma OtherAt(i: int)
    ensures 0 <= i < 10 ==> (48 + i) as char == "0123456789-_"[i]
    ensures "0123456789-_"[10] == '-' && "0123456789-_"[11] == '_'
  {
  }

  /** The sextets as one number. */
  function BaseSixtyFour(v: seq<Sextet>): nat {
    if v == [] then 0 else 64 * BaseSixtyFour(v[..|v| - 1]) + v[|v| - 1]
  }

  lemma {:induction false} SextetsAppend(bytes: seq<Byte>, tail: seq<Byte>)
    requires |bytes| % 3 == 0
    ensures Sextets(bytes + tail) == Sextets(bytes) + Sextets(tail)
  {
    if bytes == [] {
      assert bytes + tail == tail;
    } else {
      assert (bytes + tail)[3..] == bytes[3..] + tail;
      SextetsAppend(bytes[3..], tail);
    }
  }

  lemma SextetsOneMore(v: seq<Sextet>, d: Sextet)
    ensures BaseSixtyFour(v + [d]) == 64 * BaseSixtyFour(v) + d
  {
    assert (v + [d])[..|v|] == v;
  }

  lemma OctetsOneMore(bytes: seq<Byte>, b: Byte)
    ensures BigEndian(bytes + [b]) == 256 * BigEndian(bytes) + b
  {
    assert (bytes + [b])[..|bytes|] == bytes;
  }

  lemma OneOctet(bytes: seq<Byte>, v: seq<Sextet>, a: Byte)
    requires BaseSixtyFour(v) == BigEndian(bytes)
    ensures BaseSixtyFour(v + [HighSix(a), TwoAndFour(a, 0)]) == BigEndian(bytes + [a]) * 16
  {
    OctetsOneMore(bytes, a);
    SextetsOneMore(v, HighSix(a));
    SextetsOneMore(v + [HighSix(a)], TwoAndFour(a, 0));
    assert v + [HighSix(a), TwoAndFour(a, 0)] == v + [HighSix(a)] + [TwoAndFour(a, 0)];
  }

  lemma TwoOctets(bytes: seq<Byte>, v: seq<Sextet>, a: Byte, b: Byte)
    requires BaseSixtyFour(v) == BigEndian(bytes)
    ensures BaseSixtyFour(v + [HighSix(a), TwoAndFour(a, b), FourAndTwo(b, 0)]) == BigEndian(bytes + [a, b]) * 4
  {
    OctetsOneMore(bytes, a);
    OctetsOneMore(bytes + [a], b);
    assert bytes + [a, b] == bytes + [a] + [b];
    SextetsOneMore(v, HighSix(a));
    SextetsOneMore(v + [HighSix(a)], TwoAndFour(a, b));
    SextetsOneMore(v + [HighSix(a)] + [TwoAndFour(a, b)], FourAndTwo(b, 0));
    assert v + [HighSix(a), TwoAndFour(a, b), FourAndTwo(b, 0)]
        == v + [HighSix(a)] + [TwoAndFour(a, b)] + [FourAndTwo(b, 0)];
  }

  lemma ThreeOctets(bytes: seq<Byte>, v: seq<Sextet>, a: Byte, b: Byte, c: Byte)
    requires BaseSixtyFour(v) == BigEndian(bytes)
    ensures BaseSixtyFour(v + [HighSix(a), TwoAndFour(a, b), FourAndTwo(b, c), LowSix(c)])
            == BigEndian(bytes + [a, b, c])
  {
    OctetsOneMore(bytes, a);
    OctetsOneMore(bytes + [a], b);
    OctetsOneMore(bytes + [a] + [b], c);
    assert bytes + [a, b, c] == bytes + [a] + [b] + [c];
    var w := v + [HighSix(a)] + [TwoAndFour(a, b)] + [FourAndTwo(b, c)];
    SextetsOneMore(v, HighSix(a));
    SextetsOneMore(v + [HighSix(a)], TwoAndFour(a, b));
    SextetsOneMore(v + [HighSix(a)] + [TwoAndFour(a, b)], FourAndTwo(b, c));
    SextetsOneMore(w, LowSix(c));
    assert v + [HighSix(a), TwoAndFour(a, b), FourAndTwo(b, c), LowSix(c)] == w + [LowSix(c)];
  }

  /** What the bits that fill up the last sextet multiply by. */
  function Filling(octets: nat): nat {
    if octets % 3 == 0 then 1 else if octets % 3 == 1 then 16 else 4
  }

  lemma LastOne(front: seq<Byte>, tail: seq<Byte>)
    requires BaseSixtyFour(Sextets(front)) == BigEndian(front) && |tail| == 1
    ensures |Sextets(tail)| == 2
    ensures BaseSixtyFour(Sextets(front) + Sextets(tail)) == BigEndian(front + tail) * 16
  {
    OneOctet(front, Sextets(front), tail[0]);
    assert tail == [tail[0]];
  }

  lemma LastTwo(front: seq<Byte>, tail: seq<Byte>)
    requires BaseSixtyFour(Sextets(front)) == BigEndian(front) && |tail| == 2
    ensures |Sextets(tail)| == 3
    ensures BaseSixtyFour(Sextets(front) + Sextets(tail)) == BigEndian(front + tail) * 4
  {
    TwoOctets(front, Sextets(front), tail[0], tail[1]);
    assert tail == [tail[0], tail[1]];
  }

  lemma WholeGroup(a: Byte, b: Byte, c: Byte)
    ensures Sextets([a, b, c]) == [HighSix(a), TwoAndFour(a, b), FourAndTwo(b, c), LowSix(c)]
  {
    assert [a, b, c][3..] == [];
    assert Sextets([]) == [];
  }

  lemma LastThree(front: seq<Byte>, tail: seq<Byte>)
    requires BaseSixtyFour(Sextets(front)) == BigEndian(front) && |tail| == 3
    ensures |Sextets(tail)| == 4
    ensures BaseSixtyFour(Sextets(front) + Sextets(tail)) == BigEndian(front + tail)
  {
    WholeGroup(tail[0], tail[1], tail[2]);
    ThreeOctets(front, Sextets(front), tail[0], tail[1], tail[2]);
    assert tail == [tail[0], tail[1], tail[2]];
  }

  lemma GroupSizes(length: nat, last: nat)
    requires length > 0 && last == if length % 3 == 0 then 3 else length % 3
    ensures last <= length && (length - last) % 3 == 0 && Filling(length) == Filling(last)
    ensures Filling(length - last) == 1 && (4 * length + 2) / 3 == (4 * (length - last) + 2) / 3 + last + 1
  {
  }

  /** The sextets are as few as hold the octets, and mean the same number, shifted left by the bits that
      fill up the last one. */
  lemma {:induction false} SextetsMeanOctets(bytes: seq<Byte>)
    ensures |Sextets(bytes)| == (4 * |bytes| + 2) / 3
    ensures BaseSixtyFour(Sextets(bytes)) == BigEndian(bytes) * Filling(|bytes|)
    decreases |bytes|
  {
    if bytes != [] {
      var last := if |bytes| % 3 == 0 then 3 else |bytes| % 3;
      GroupSizes(|bytes|, last);
      var front, tail := bytes[..|bytes| - last], bytes[|bytes| - last..];
      assert bytes == front + tail;
      SextetsMeanOctets(front);
      SextetsAppend(front, tail);
      if last == 1 {
        LastOne(front, tail);
      } else if last == 2 {
        LastTwo(front, tail);
      } else {
        LastThree(front, tail);
      }
    }
  }

  lemma {:induction false} CharsAt(sextets: seq<Sextet>, i: nat)
    requires i < |sextets|
    ensures |Chars(sextets)| == |sextets| && Chars(sextets)[i] == SextetChar(sextets[i])
  {
    CharsAreNotPadding(sextets);
    if i > 0 {
      CharsAt(sextets[1..], i - 1);
    }
  }

  // ---------------------------------------------------------------- the JWK numbers

  /** Decoding and reading big-endian gives the number back. */
  lemma B64uRoundTrip(n: nat)
    ensures Decode(B64u(n)) == Some(Octets(n)) && BigEndian(Octets(n)) == n
  {
    UnpaddedBase64UrlIsABijection(Octets(n), B64u(n));
    OctetsFit(n);
    OctetsMeanNumber(n, OctetCount(n));
  }

  /** The encoding is the shortest: any text that decodes to the number's value is at least as long in
      octets, and a positive number starts with an octet that is not zero. */
  lemma B64uIsMinimal(n: nat, s: string)
    requires n > 0 && Decode(s).Some? && BigEndian(Decode(s).value) == n
    ensures |Octets(n)| <= |Decode(s).value|
    ensures Octets(n)[0] != 0
    ensures |Octets(n)| == |Decode(s).value| ==> s == B64u(n)
  {
    NoLeadingZero(n);
    OctetsAreFewest(Decode(s).value);
    OctetsFit(n);
    OctetsMeanNumber(n, OctetCount(n));
    if |Octets(n)| == |Decode(s).value| {
      BigEndianIsInjective(Octets(n), Decode(s).value);
      UnpaddedBase64UrlIsABijection(Octets(n), s);
    }
  }

  /** The text of a number, character by character: the digits to base 64, in the alphabet's order, of the
      number shifted left by the bits that fill up the last one. */
  lemma B64uSpells(n: nat) returns (v: seq<Sextet>)
    ensures |B64u(n)| == |v| == (4 * OctetCount(n) + 2) / 3
    ensures BaseSixtyFour(v) == n * Filling(OctetCount(n))
    ensures forall i :: 0 <= i < |v| ==> B64u(n)[i] == SextetChar(v[i])
  {
    v := Sextets(Octets(n));
    OctetsFit(n);
    OctetsMeanNumber(n, OctetCount(n));
    SextetsMeanOctets(Octets(n));
    UnpaddedText(Octets(n));
    CharsAreNotPadding(v);
    forall i | 0 <= i < |v|
      ensures B64u(n)[i] == SextetChar(v[i])
    {
      CharsAt(v, i);
    }
  }

  lemma {:induction false} BigEndianIsInjective(a: seq<Byte>, b: seq<Byte>)
    requires |a| == |b| && BigEndian(a) == BigEndian(b)
    ensures a == b
  {
    if a != [] {
      var last := |a| - 1;
      assert BigEndian(a) / 256 == BigEndian(a[..last]) && BigEndian(b) / 256 == BigEndian(b[..last]);
      BigEndianIsInjective(a[..last], b[..last]);
      assert a == a[..last] + [a[last]] && b == b[..last] + [b[last]];
    }
  }

  lemma B64uIsInjective(n: nat, m: nat)
    requires B64u(n) == B64u(m)
    ensures n == m
  {
    B64uRoundTrip(n);
    B64uRoundTrip(m);
  }
}

/** What `encodeURIComponent` means in `apiPath` of `admin/src/api/client.ts`: percent-encoding (section 2.1
    of RFC 3986) of the UTF-8 form (section 3 of RFC 3629), read back by a decoder written on its own. */
module PercentCoding {
  import opened ApiPath
  import opened Text
  import opened Wrappers

  // ---------------------------------------------------------------- the decoder

  function HexValue(c: char): Option<nat> {
    if '0' <= c <= '9' then Some(c as nat - '0' as nat)
    else if 'A' <= c <= 'F' then Some(c as nat - 'A' as nat + 10)
    else None
  }

  /** The octets a component spells: `%XY` is octet XY, and any other ASCII character is its own octet. */
  function Octets(text: string): Option<seq<nat>> {
    if text == [] then Some([])
    else if text[0] != '%' then
      if text[0] as nat < 0x80 then Before([text[0] as nat], Octets(text[1..])) else None
    else if |text| >= 3 && HexValue(text[1]).Some? && HexValue(text[2]).Some? then
      Before([16 * HexValue(text[1]).value + HexValue(text[2]).value], Octets(text[3..]))
    else None
  }

  /** These octets before those of the rest, if the rest can be read. */
  function Before(octets: seq<nat>, rest: Option<seq<nat>>): Option<seq<nat>> {
    match rest
    case Some(more) => Some(octets + more)
    case None => None
  }

  predicate Tail(octet: nat) {
    0x80 <= octet < 0xC0
  }

  /** The first character of a row of octets, and how many octets it takes. */
  function FirstCharacter(octets: seq<nat>): Option<(char, nat)>
    requires octets != []
  {
    if octets[0] < 0x80 then Some((octets[0] as char, 1))
    else if 0xC2 <= octets[0] < 0xE0 && |octets| >= 2 && Tail(octets[1]) then
      Some((((octets[0] - 0xC0) * 0x40 + (octets[1] - 0x80)) as char, 2))
    else if 0xE0 <= octets[0] < 0xF0 && |octets| >= 3 && Tail(octets[1]) && Tail(octets[2]) then
      var code := (octets[0] - 0xE0) * 0x1000 + (octets[1] - 0x80) * 0x40 + (octets[2] - 0x80);
      if 0x800 <= code < 0xD800 || 0xE000 <= code then Some((code as char, 3)) else None
    else if 0xF0 <= octets[0] < 0xF5 && |octets| >= 4 && Tail(octets[1]) && Tail(octets[2]) && Tail(octets[3]) then
      var code := (octets[0] - 0xF0) * 0x4_0000 + (octets[1] - 0x80) * 0x1000 + (octets[2] - 0x80) * 0x40
                  + (octets[3] - 0x80);
      if 0x1_0000 <= code < 0x11_0000 then Some((code as char, 4)) else None
    else None
  }

  function ReadUtf8(octets: seq<nat>): Option<string>
    decreases |octets|
  {
    if octets == [] then Some([])
    else
      match FirstCharacter(octets)
      case None => None
      case Some((c, n)) =>
        if n == 0 || n > |octets| then None
        else
          match ReadUtf8(octets[n..])
          case Some(rest) => Some([c] + rest)
          case None => None
  }

  function Decode(text: string): Option<string> {
    match Octets(text)
    case Some(octets) => ReadUtf8(octets)
    case None => None
  }

  // ---------------------------------------------------------------- reading back what was encoded

  lemma HexValueOfDigit(d: nat)
    requires d < 16
    ensures HexValue(HexDigit(d)) == Some(d)
  {
  }

  lemma OctetsOfTriple(text: string, high: nat, low: nat)
    requires |text| >= 3 && text[0] == '%'
    requires HexValue(text[1]) == Some(high) && HexValue(text[2]) == Some(low)
    ensures Octets(text) == Before([16 * high + low], Octets(text[3..]))
  {
  }

  lemma OctetsOfOne(octet: nat, first: string, rest: string)
    requires octet < 0x100 && first == ['%', HexDigit(octet / 16 % 16), HexDigit(octet % 16)]
    ensures Octets(first + rest) == Before([octet], Octets(rest))
  {
    var text := first + rest;
    assert text[0] == '%' && text[1] == first[1] && text[2] == first[2] && text[3..] == rest;
    HexValueOfDigit(octet / 16 % 16);
    HexValueOfDigit(octet % 16);
    OctetsOfTriple(text, octet / 16 % 16, octet % 16);
  }

  lemma {:induction false} OctetsOfEncoded(octets: seq<nat>, rest: string)
    requires forall i :: 0 <= i < |octets| ==> octets[i] < 0x100
    ensures Octets(PercentEncode(octets) + rest) == Before(octets, Octets(rest))
  {
    if octets == [] {
      assert PercentEncode(octets) + rest == rest;
      assert Octets(rest).Some? ==> octets + Octets(rest).value == Octets(rest).value;
    } else {
      var o := octets[0];
      var tail := PercentEncode(octets[1..]);
      var first := ['%', HexDigit(o / 16 % 16), HexDigit(o % 16)];
      PercentEncodeCons(octets, first, tail, rest);
      OctetsOfEncoded(octets[1..], rest);
      OctetsOfOne(o, first, tail + rest);
      BeforeCons(o, octets[1..], Octets(rest));
      assert octets == [o] + octets[1..];
    }
  }

  lemma PercentEncodeCons(octets: seq<nat>, first: string, tail: string, rest: string)
    requires octets != [] && tail == PercentEncode(octets[1..])
    requires first == ['%', HexDigit(octets[0] / 16 % 16), HexDigit(octets[0] % 16)]
    ensures PercentEncode(octets) + rest == first + (tail + rest)
  {
    assert PercentEncode(octets) == first + tail;
  }

  lemma BeforeCons(octet: nat, octets: seq<nat>, rest: Option<seq<nat>>)
    ensures Before([octet], Before(octets, rest)) == Before([octet] + octets, rest)
  {
    if rest.Some? {
      assert [octet] + (octets + rest.value) == [octet] + octets + rest.value;
    }
  }

  lemma Utf8IsOctets(code: nat)
    requires code < 0x11_0000
    ensures forall i :: 0 <= i < |Utf8(code)| ==> Utf8(code)[i] < 0x100
    ensures Utf8(code) != []
  {
  }

  lemma CodeByOctets(code: nat)
    requires code < 0x11_0000
    ensures code == code / 0x40 * 0x40 + code % 0x40
    ensures code == code / 0x1000 * 0x1000 + code / 0x40 % 0x40 * 0x40 + code % 0x40
    ensures code == code / 0x4_0000 * 0x4_0000 + code / 0x1000 % 0x40 * 0x1000 + code / 0x40 % 0x40 * 0x40
                    + code % 0x40
  {
    assert code / 0x1000 == code / 0x40 / 0x40;
    assert code / 0x4_0000 == code / 0x1000 / 0x40;
  }

  lemma FirstOfUtf8(c: char, rest: seq<nat>)
    ensures FirstCharacter(Utf8(c as nat) + rest) == Some((c, |Utf8(c as nat)|))
  {
    var code := c as nat;
    var octets := Utf8(code);
    CodeByOctets(code);
    assert forall i :: 0 <= i < |octets| ==> (octets + rest)[i] == octets[i];
    if 0x1_0000 <= code {
      assert code / 0x4_0000 < 5;
    } else if 0x800 <= code {
      assert code / 0x1000 < 16;
    }
  }

  lemma ReadsOneMore(c: char, rest: seq<nat>)
    ensures ReadUtf8(Utf8(c as nat) + rest)
            == match ReadUtf8(rest) case Some(text) => Some([c] + text) case None => None
  {
    FirstOfUtf8(c, rest);
    var octets := Utf8(c as nat) + rest;
    assert octets[|Utf8(c as nat)|..] == rest;
  }

  /** The UTF-8 octets of a text. */
  function Utf8Text(text: string): seq<nat> {
    if text == [] then [] else Utf8(text[0] as nat) + Utf8Text(text[1..])
  }

  lemma {:induction false} EncodeSpellsUtf8(text: string)
    ensures Octets(Encode(text)) == Some(Utf8Text(text))
  {
    if text != [] {
      var c, rest := text[0], Encode(text[1..]);
      EncodeSpellsUtf8(text[1..]);
      assert Unreserved(c) ==> c as nat < 0x80 && c != '%';
      if Unreserved(c) {
        assert ([c] + rest)[1..] == rest;
      } else {
        Utf8IsOctets(c as nat);
        OctetsOfEncoded(Utf8(c as nat), rest);
      }
    }
  }

  lemma {:induction false} Utf8ReadsBack(text: string)
    ensures ReadUtf8(Utf8Text(text)) == Some(text)
  {
    if text != [] {
      Utf8ReadsBack(text[1..]);
      ReadsOneMore(text[0], Utf8Text(text[1..]));
      assert [text[0]] + text[1..] == text;
    }
  }

  /** Whatever the text, decoding what it is encoded as gives it back. */
  lemma EncodedReadsBack(text: string)
    ensures Decode(Encode(text)) == Some(text)
  {
    EncodeSpellsUtf8(text);
    Utf8ReadsBack(text);
  }

  /** Different texts are encoded differently. */
  lemma EncodeIsInjective(a: string, b: string)
    ensures Encode(a) == Encode(b) <==> a == b
  {
    EncodedReadsBack(a);
    EncodedReadsBack(b);
  }

  // ---------------------------------------------------------------- what is left as it is

  lemma InOneOfFour(c: char, w: string, x: string, y: string, z: string)
    ensures c in w + x + y + z <==> c in w || c in x || c in y || c in z
  {
  }

  lemma UnreservedSpelled(c: char)
    ensures Unreserved(c) <==>
              c in "abcdefghijklmnopqrstuvwxyz" + "ABCDEFGHIJKLMNOPQRSTUVWXYZ" + "0123456789" + "-_.!~*'()"
  {
    LowerLetters(c);
    UpperLetters(c);
    Digits(c);
    InOneOfFour(c, "abcdefghijklmnopqrstuvwxyz", "ABCDEFGHIJKLMNOPQRSTUVWXYZ", "0123456789", "-_.!~*'()");
  }

  lemma EncodeOne(c: char)
    ensures Unreserved(c) ==> Encode([c]) == [c]
    ensures !Unreserved(c) ==> Encode([c]) == PercentEncode(Utf8(c as nat)) && |Encode([c])| >= 3
  {
    assert [c][1..] == [];
    assert Encode([]) == [];
    Utf8IsOctets(c as nat);
  }

  /** Exactly these characters stay as they are. */
  lemma EncodeKeepsExactly(c: char)
    ensures Encode([c]) == [c] <==>
              c in "abcdefghijklmnopqrstuvwxyz" + "ABCDEFGHIJKLMNOPQRSTUVWXYZ" + "0123456789" + "-_.!~*'()"
  {
    EncodeOne(c);
    UnreservedSpelled(c);
  }

  lemma {:induction false} UnreservedIsKept(text: string)
    requires forall c :: c in text ==> Unreserved(c)
    ensures Encode(text) == text
  {
    if text != [] {
      UnreservedIsKept(text[1..]);
      assert Encode(text) == [text[0]] + text[1..];
    }
  }

  /** A text of such characters is encoded as itself. */
  lemma PlainTextIsKept(text: string)
    requires forall c :: c in text ==>
               c in "abcdefghijklmnopqrstuvwxyz" + "ABCDEFGHIJKLMNOPQRSTUVWXYZ" + "0123456789" + "-_.!~*'()"
    ensures Encode(text) == text
  {
    forall c | c in text
      ensures Unreserved(c)
    {
      UnreservedSpelled(c);
    }
    UnreservedIsKept(text);
  }

  // ---------------------------------------------------------------- paths

  lemma SameRest(first: string, a: string, b: string)
    ensures first + a == first + b <==> a == b
  {
    assert (first + a)[|first|..] == a && (first + b)[|first|..] == b;
  }

  lemma SameBegin(a: string, b: string, rest: string)
    requires a + rest == b + rest
    ensures a == b
  {
    assert |a| == |b|;
    assert (a + rest)[..|a|] == a && (b + rest)[..|b|] == b;
  }

  function SpellOne(token: Token): string {
    Spell([token])
  }

  lemma SpellCons(token: Token, rest: seq<Token>)
    ensures Spell([token] + rest) == SpellOne(token) + Spell(rest)
  {
    assert [token][1..] == [] && ([token] + rest)[1..] == rest;
    assert Spell([]) == [];
  }

  lemma {:induction false} OneHoleTells(tokens: seq<Token>, key: string, a: string, b: string,
                                        values: map<string, string>)
    requires multiset(HoleNames(tokens))[key] == 1
    requires Spell(Substitute(tokens, values[key := a])) == Spell(Substitute(tokens, values[key := b]))
    ensures Encode(a) == Encode(b)
  {
    if tokens != [] {
      var token, rest := tokens[0], tokens[1..];
      var restA, restB := Substitute(rest, values[key := a]), Substitute(rest, values[key := b]);
      SpellCons(SubstituteOne(token, values[key := a]), restA);
      SpellCons(SubstituteOne(token, values[key := b]), restB);
      assert HoleNames(tokens) == (if token.Hole? then [token.name] else []) + HoleNames(rest);
      if token == Hole(key) {
        assert key !in HoleNames(rest);
        SubstituteIgnoresAbsent(rest, key, a, values);
        SubstituteIgnoresAbsent(rest, key, b, values);
        TextIsSpelled(Encode(a));
        TextIsSpelled(Encode(b));
        SameBegin(Encode(a), Encode(b), Spell(restA));
      } else {
        SameRest(SpellOne(SubstituteOne(token, values[key := a])), Spell(restA), Spell(restB));
        OneHoleTells(rest, key, a, b, values);
      }
    }
  }

  lemma TextIsSpelled(text: string)
    ensures SpellOne(Text(text)) == text
  {
    assert [Text(text)][1..] == [];
    assert Spell([]) == [];
  }

  lemma {:induction false} OneOtherText(params: seq<Param>, i: nat, text: string)
    requires i < |params| && DistinctKeys(params)
    ensures var others := params[i := Param(params[i].key, text)];
            DistinctKeys(others) && Values(others) == Values(params)[params[i].key := text]
    decreases i
  {
    var other := Param(params[i].key, text);
    var others := params[i := other];
    if i == 0 {
      assert others[1..] == params[1..];
    } else {
      assert others[1..] == params[1..][i - 1 := other];
      assert forall j :: 0 <= j < |params| - 1 ==> params[1..][j] == params[j + 1];
      OneOtherText(params[1..], i - 1, text);
      assert params[0].key != params[i].key;
    }
  }

  lemma OtherTextOtherSpelling(tokens: seq<Token>, values: map<string, string>, key: string, text: string)
    requires multiset(HoleNames(tokens))[key] == 1 && key in values && values[key] != text
    ensures Spell(Substitute(tokens, values)) != Spell(Substitute(tokens, values[key := text]))
  {
    assert values[key := values[key]] == values;
    EncodeIsInjective(text, values[key]);
    if Spell(Substitute(tokens, values)) == Spell(Substitute(tokens, values[key := text])) {
      OneHoleTells(tokens, key, values[key], text, values);
      assert false;
    }
  }

  lemma NamedOnceAnyText(tokens: seq<Token>, values: map<string, string>, key: string, text: string)
    requires key in values && key in HoleNames(tokens)
    ensures EachHoleNamedOnce(tokens, values) <==> EachHoleNamedOnce(tokens, values[key := text])
    ensures EachHoleNamedOnce(tokens, values) ==> multiset(HoleNames(tokens))[key] == 1
  {
    assert multiset(HoleNames(tokens))[key] > 0;
  }

  /** A different text for one parameter of a path that is made makes a different path, whatever the
      others are, if the template names the parameter. */
  lemma OtherTextOtherPath(tokens: seq<Token>, params: seq<Param>, i: nat, text: string)
    requires WellFormed(tokens) && DistinctKeys(params) && i < |params|
    requires forall j :: 0 <= j < |params| ==> BraceFree(params[j].key)
    requires params[i].key in HoleNames(tokens) && text != params[i].text
    ensures var others := params[i := Param(params[i].key, text)];
            var path, other := ReplaceEach(Spell(tokens), params), ReplaceEach(Spell(tokens), others);
            !HasPlaceholder(path) ==> !HasPlaceholder(other) && path != other
  {
    var key := params[i].key;
    OneOtherText(params, i, text);
    ValueOfParameter(params, i);
    ReplacingIsSubstituting(tokens, params);
    ReplacingIsSubstituting(tokens, params[i := Param(key, text)]);
    NamedOnceAnyText(tokens, Values(params), key, text);
    if EachHoleNamedOnce(tokens, Values(params)) {
      OtherTextOtherSpelling(tokens, Values(params), key, text);
    }
  }

  lemma ValueOfParameter(params: seq<Param>, i: nat)
    requires i < |params| && DistinctKeys(params)
    ensures params[i].key in Values(params) && Values(params)[params[i].key] == params[i].text
  {
    OneOtherText(params, i, params[i].text);
    assert params[i := Param(params[i].key, params[i].text)] == params;
  }

  /** A slash or the end follows every placeholder. */
  predicate Delimited(tokens: seq<Token>) {
    forall i :: 0 <= i < |tokens| - 1 && tokens[i].Hole? ==>
      tokens[i + 1].Text? && tokens[i + 1].text != "" && tokens[i + 1].text[0] == '/'
  }

  lemma UpToTheSlash(a: string, b: string, restA: string, restB: string)
    requires '/' !in a && '/' !in b && a + restA == b + restB
    requires restA == restB == [] || (restA != [] && restB != [] && restA[0] == restB[0] == '/')
    ensures a == b && restA == restB
  {
    var whole := a + restA;
    assert whole[..|a|] == a && whole[|a|..] == restA && whole[..|b|] == b && whole[|b|..] == restB;
    if restA != [] {
      FirstIndexIsUnique(whole, '/', |a|);
      FirstIndexIsUnique(whole, '/', |b|);
    }
  }

  lemma {:induction false} SpellingTellsTexts(tokens: seq<Token>, a: map<string, string>, b: map<string, string>)
    requires Delimited(tokens) && forall name :: name in HoleNames(tokens) ==> name in a && name in b
    requires Spell(Substitute(tokens, a)) == Spell(Substitute(tokens, b))
    ensures forall name :: name in HoleNames(tokens) ==> a[name] == b[name]
  {
    if tokens != [] {
      var token, rest := tokens[0], tokens[1..];
      var restA, restB := Substitute(rest, a), Substitute(rest, b);
      SpellCons(SubstituteOne(token, a), restA);
      SpellCons(SubstituteOne(token, b), restB);
      assert HoleNames(tokens) == (if token.Hole? then [token.name] else []) + HoleNames(rest);
      assert Delimited(rest) by {
        assert forall i :: 0 <= i < |rest| ==> rest[i] == tokens[i + 1];
      }
      if token.Hole? {
        assert token.name in HoleNames(tokens);
        EncodeIsInert(a[token.name]);
        EncodeIsInert(b[token.name]);
        TextIsSpelled(Encode(a[token.name]));
        TextIsSpelled(Encode(b[token.name]));
        FirstOfRest(tokens, a);
        FirstOfRest(tokens, b);
        UpToTheSlash(Encode(a[token.name]), Encode(b[token.name]), Spell(restA), Spell(restB));
        EncodeIsInjective(a[token.name], b[token.name]);
      } else {
        SameRest(SpellOne(token), Spell(restA), Spell(restB));
      }
      SpellingTellsTexts(rest, a, b);
    }
  }

  lemma FirstOfRest(tokens: seq<Token>, values: map<string, string>)
    requires Delimited(tokens) && tokens != [] && tokens[0].Hole?
    ensures var rest := Spell(Substitute(tokens[1..], values));
            if |tokens| == 1 then rest == [] else rest != [] && rest[0] == '/'
  {
    if |tokens| > 1 {
      assert tokens[1..][0] == tokens[1];
    }
  }

  /** When every placeholder is followed by a slash or the end, the path made tells every text that was put
      into it. */
  lemma PathTellsTexts(tokens: seq<Token>, params: seq<Param>, params': seq<Param>, name: string)
    requires WellFormed(tokens) && Delimited(tokens) && DistinctKeys(params) && DistinctKeys(params')
    requires forall i :: 0 <= i < |params| ==> BraceFree(params[i].key)
    requires forall i :: 0 <= i < |params'| ==> BraceFree(params'[i].key)
    requires name in HoleNames(tokens)
    ensures var path, path' := ReplaceEach(Spell(tokens), params), ReplaceEach(Spell(tokens), params');
            !HasPlaceholder(path) && path == path' ==>
              name in Values(params) && name in Values(params') && Values(params)[name] == Values(params')[name]
  {
    ReplacingIsSubstituting(tokens, params);
    ReplacingIsSubstituting(tokens, params');
    var path, path' := ReplaceEach(Spell(tokens), params), ReplaceEach(Spell(tokens), params');
    if !HasPlaceholder(path) && path == path' {
      forall n | n in HoleNames(tokens)
        ensures n in Values(params) && n in Values(params')
      {
        assert multiset(HoleNames(tokens))[n] > 0;
      }
      SpellingTellsTexts(tokens, Values(params), Values(params'));
    }
  }
}

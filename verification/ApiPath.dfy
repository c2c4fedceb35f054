/** `apiPath` of `admin/src/api/client.ts`: path parameters are put into a template one at a time,
    and a template with a placeholder left over is refused. */
module ApiPath {
  import opened Text
  import opened Wrappers

  datatype Param = Param(key: string, text: string)

  // ---------------------------------------------------------------- encodeURIComponent

  predicate Unreserved(c: char) {
    || 'a' <= c <= 'z' || 'A' <= c <= 'Z' || '0' <= c <= '9'
    || c in "-_.!~*'()"
  }

  function Utf8(code: nat): seq<nat> {
    if code < 0x80 then [code]
    else if code < 0x800 then [0xC0 + code / 0x40, 0x80 + code % 0x40]
    else if code < 0x1_0000 then [0xE0 + code / 0x1000, 0x80 + code / 0x40 % 0x40, 0x80 + code % 0x40]
    else [0xF0 + code / 0x4_0000, 0x80 + code / 0x1000 % 0x40, 0x80 + code / 0x40 % 0x40, 0x80 + code % 0x40]
  }

  function HexDigit(d: nat): char
    requires d < 16
  {
    "0123456789ABCDEF"[d]
  }

  function PercentEncode(bytes: seq<nat>): string {
    if bytes == [] then []
    else ['%', HexDigit(bytes[0] / 16 % 16), HexDigit(bytes[0] % 16)] + PercentEncode(bytes[1..])
  }

  function Encode(text: string): string {
    if text == [] then []
    else (if Unreserved(text[0]) then [text[0]] else PercentEncode(Utf8(text[0] as nat))) + Encode(text[1..])
  }

  /** Neither a brace, nor a slash, nor a `$` that `replace` would read as a pattern. */
  predicate Inert(text: string) {
    '{' !in text && '}' !in text && '/' !in text && '$' !in text
  }

  lemma UnreservedIsInert(c: char)
    ensures Unreserved(c) ==> Inert([c])
  {
  }

  lemma InertConcat(a: string, b: string)
    ensures Inert(a) && Inert(b) ==> Inert(a + b)
  {
  }

  lemma HexDigitIsInert(d: nat)
    requires d < 16
    ensures Inert([HexDigit(d)])
  {
  }

  lemma OctetIsInert(high: char, low: char)
    requires Inert([high]) && Inert([low])
    ensures Inert(['%', high, low])
  {
    assert ['%', high, low] == ['%'] + [high] + [low];
  }

  lemma {:induction false} PercentEncodeIsInert(bytes: seq<nat>)
    ensures Inert(PercentEncode(bytes))
  {
    if bytes != [] {
      var high, low := HexDigit(bytes[0] / 16 % 16), HexDigit(bytes[0] % 16);
      PercentEncodeIsInert(bytes[1..]);
      HexDigitIsInert(bytes[0] / 16 % 16);
      HexDigitIsInert(bytes[0] % 16);
      OctetIsInert(high, low);
      InertConcat(['%', high, low], PercentEncode(bytes[1..]));
    }
  }

  lemma {:induction false} EncodeIsInert(text: string)
    ensures Inert(Encode(text))
  {
    if text != [] {
      var first := if Unreserved(text[0]) then [text[0]] else PercentEncode(Utf8(text[0] as nat));
      EncodeIsInert(text[1..]);
      UnreservedIsInert(text[0]);
      PercentEncodeIsInert(Utf8(text[0] as nat));
      InertConcat(first, Encode(text[1..]));
    }
  }

  // ---------------------------------------------------------------- the function itself

  /** `value.replace(pattern, replacement)` with a text pattern: the first occurrence only. */
  function ReplaceFirst(value: string, pattern: string, replacement: string): string {
    if pattern <= value then replacement + value[|pattern|..]
    else if value == [] then []
    else [value[0]] + ReplaceFirst(value[1..], pattern, replacement)
  }

  /** The expression `\{[^}]+\}` matches from `i` to `j`. */
  predicate PlaceholderAt(value: string, i: int, j: int) {
    0 <= i < j < |value| && i + 1 < j && value[i] == '{' && value[j] == '}' && '}' !in value[i + 1..j]
  }

  predicate HasPlaceholder(value: string) {
    exists i, j :: 0 <= i < |value| && 0 <= j < |value| && PlaceholderAt(value, i, j)
  }

  method MakePath(template: string, params: seq<Param>) returns (r: Result<string, string>)
    ensures r == if HasPlaceholder(ReplaceEach(template, params)) then Failure(template)
                 else Success(ReplaceEach(template, params))
  {
    var value := template;
    for i := 0 to |params|
      invariant ReplaceEach(value, params[i..]) == ReplaceEach(template, params)
    {
      value := ReplaceFirst(value, "{" + params[i].key + "}", Encode(params[i].text));
    }
    if HasPlaceholder(value) {
      return Failure(template);
    }
    return Success(value);
  }

  function ReplaceEach(value: string, params: seq<Param>): string
    decreases |params|
  {
    if params == [] then value
    else ReplaceEach(ReplaceFirst(value, "{" + params[0].key + "}", Encode(params[0].text)), params[1..])
  }

  // ---------------------------------------------------------------- templates

  /** A well-formed template is a sequence of brace-free texts and `{name}` placeholders. */
  datatype Token = Text(text: string) | Hole(name: string)

  predicate BraceFree(s: string) {
    '{' !in s && '}' !in s
  }

  predicate WellFormed(tokens: seq<Token>) {
    forall i :: 0 <= i < |tokens| ==>
      match tokens[i]
      case Text(t) => BraceFree(t)
      case Hole(n) => n != "" && BraceFree(n)
  }

  function Spell(tokens: seq<Token>): string {
    if tokens == [] then []
    else (match tokens[0]
          case Text(t) => t
          case Hole(n) => "{" + n + "}") + Spell(tokens[1..])
  }

  function HoleNames(tokens: seq<Token>): seq<string> {
    if tokens == [] then []
    else (if tokens[0].Hole? then [tokens[0].name] else []) + HoleNames(tokens[1..])
  }

  predicate DistinctKeys(params: seq<Param>) {
    forall i, j :: 0 <= i < j < |params| ==> params[i].key != params[j].key
  }

  function Keys(params: seq<Param>): seq<string> {
    if params == [] then [] else [params[0].key] + Keys(params[1..])
  }

  function Values(params: seq<Param>): map<string, string> {
    if params == [] then map[] else Values(params[1..])[params[0].key := params[0].text]
  }

  function SubstituteOne(token: Token, values: map<string, string>): Token {
    match token
    case Text(_) => token
    case Hole(n) => if n in values then Text(Encode(values[n])) else token
  }

  /** All placeholders replaced at the same time. */
  function Substitute(tokens: seq<Token>, values: map<string, string>): seq<Token> {
    if tokens == [] then []
    else [SubstituteOne(tokens[0], values)] + Substitute(tokens[1..], values)
  }

  /** One round of the loop, on tokens. */
  function FillFirst(tokens: seq<Token>, name: string, text: string): seq<Token> {
    if tokens == [] then []
    else if tokens[0] == Hole(name) then [Text(Encode(text))] + tokens[1..]
    else [tokens[0]] + FillFirst(tokens[1..], name, text)
  }

  function FillEach(tokens: seq<Token>, params: seq<Param>): seq<Token>
    decreases |params|
  {
    if params == [] then tokens
    else FillEach(FillFirst(tokens, params[0].key, params[0].text), params[1..])
  }

  // ---------------------------------------------------------------- text against tokens

  lemma {:induction false} ReplaceSkipsText(text: string, rest: string, pattern: string, replacement: string)
    requires pattern != [] && pattern[0] !in text
    ensures ReplaceFirst(text + rest, pattern, replacement) == text + ReplaceFirst(rest, pattern, replacement)
  {
    if text == [] {
      assert text + rest == rest;
    } else {
      assert (text + rest)[0] == text[0] && (text + rest)[1..] == text[1..] + rest;
      ReplaceSkipsText(text[1..], rest, pattern, replacement);
    }
  }

  lemma PlaceholderPrefix(key: string, name: string, rest: string)
    requires BraceFree(key) && BraceFree(name)
    ensures "{" + key + "}" <= "{" + name + "}" + rest <==> key == name
  {
    var pattern, value := "{" + key + "}", "{" + name + "}" + rest;
    if pattern <= value {
      var tail := value[1..];
      assert tail == name + "}" + rest && tail[..|key| + 1] == pattern[1..] == key + "}";
      assert tail[|name|] == '}' && tail[..|name|] == name;
      assert tail[|key|] == pattern[|key| + 1] && tail[..|key|] == key;
      FirstIndexIsUnique(tail, '}', |key|);
      FirstIndexIsUnique(tail, '}', |name|);
    }
  }

  lemma ReplaceAtHole(key: string, name: string, rest: string, replacement: string)
    requires BraceFree(key) && BraceFree(name)
    ensures ReplaceFirst("{" + name + "}" + rest, "{" + key + "}", replacement)
            == if name == key then replacement + rest
               else "{" + name + "}" + ReplaceFirst(rest, "{" + key + "}", replacement)
  {
    var pattern, whole := "{" + key + "}", "{" + name + "}" + rest;
    PlaceholderPrefix(key, name, rest);
    if name == key {
      assert whole[|pattern|..] == rest;
    } else {
      assert whole[1..] == (name + "}") + rest;
      ReplaceSkipsText(name + "}", rest, pattern, replacement);
      var skipped := ReplaceFirst(rest, pattern, replacement);
      assert [whole[0]] + ((name + "}") + skipped) == "{" + name + "}" + skipped;
    }
  }

  lemma {:induction false} ReplaceFillsFirst(tokens: seq<Token>, key: string, text: string)
    requires WellFormed(tokens) && BraceFree(key)
    ensures ReplaceFirst(Spell(tokens), "{" + key + "}", Encode(text)) == Spell(FillFirst(tokens, key, text))
  {
    if tokens != [] {
      var rest := Spell(tokens[1..]);
      ReplaceFillsFirst(tokens[1..], key, text);
      match tokens[0]
      case Text(t) =>
        ReplaceSkipsText(t, rest, "{" + key + "}", Encode(text));
      case Hole(n) =>
        ReplaceAtHole(key, n, rest, Encode(text));
        assert n == key ==> FillFirst(tokens, key, text)[1..] == tokens[1..];
    }
  }

  lemma {:induction false} FillFirstWellFormed(tokens: seq<Token>, key: string, text: string)
    requires WellFormed(tokens)
    ensures WellFormed(FillFirst(tokens, key, text))
  {
    if tokens != [] {
      EncodeIsInert(text);
      FillFirstWellFormed(tokens[1..], key, text);
    }
  }

  lemma {:induction false} ReplaceFillsEach(tokens: seq<Token>, params: seq<Param>)
    requires WellFormed(tokens) && forall i :: 0 <= i < |params| ==> BraceFree(params[i].key)
    ensures ReplaceEach(Spell(tokens), params) == Spell(FillEach(tokens, params))
    ensures WellFormed(FillEach(tokens, params))
    decreases |params|
  {
    if params != [] {
      ReplaceFillsFirst(tokens, params[0].key, params[0].text);
      FillFirstWellFormed(tokens, params[0].key, params[0].text);
      ReplaceFillsEach(FillFirst(tokens, params[0].key, params[0].text), params[1..]);
    }
  }

  // ---------------------------------------------------------------- when nothing is left over

  lemma {:induction false} NoHoleMeansNoBrace(tokens: seq<Token>)
    requires WellFormed(tokens)
    ensures HoleNames(tokens) == [] ==> BraceFree(Spell(tokens))
  {
    if tokens != [] {
      NoHoleMeansNoBrace(tokens[1..]);
    }
  }

  lemma {:induction false} HoleMeansPlaceholder(tokens: seq<Token>)
    requires WellFormed(tokens) && HoleNames(tokens) != []
    ensures HasPlaceholder(Spell(tokens))
  {
    var rest := Spell(tokens[1..]);
    match tokens[0]
    case Hole(n) =>
      HoleIsPlaceholder(n, rest);
    case Text(t) =>
      HoleMeansPlaceholder(tokens[1..]);
      PlaceholderAfterText(t, rest);
  }

  lemma HoleIsPlaceholder(name: string, rest: string)
    requires name != "" && BraceFree(name)
    ensures HasPlaceholder("{" + name + "}" + rest)
  {
    var value := "{" + name + "}" + rest;
    assert value[1..|name| + 1] == name;
    assert PlaceholderAt(value, 0, |name| + 1);
  }

  lemma PlaceholderAfterText(text: string, rest: string)
    requires HasPlaceholder(rest)
    ensures HasPlaceholder(text + rest)
  {
    var i, j :| 0 <= i < |rest| && 0 <= j < |rest| && PlaceholderAt(rest, i, j);
    SliceAfter(text, rest, i + 1, j);
    var value := text + rest;
    assert value[|text| + i] == rest[i] && value[|text| + j] == rest[j];
    assert PlaceholderAt(value, |text| + i, |text| + j);
  }

  lemma SliceAfter(a: string, b: string, i: nat, j: nat)
    requires i <= j <= |b|
    ensures (a + b)[|a| + i..|a| + j] == b[i..j]
  {
  }

  /** The regular expression finds something exactly when a placeholder is left. */
  lemma PlaceholderIffHole(tokens: seq<Token>)
    requires WellFormed(tokens)
    ensures HasPlaceholder(Spell(tokens)) <==> HoleNames(tokens) != []
  {
    if HoleNames(tokens) == [] {
      NoHoleMeansNoBrace(tokens);
    } else {
      HoleMeansPlaceholder(tokens);
    }
  }

  lemma {:induction false} FillFirstUsesOneHole(tokens: seq<Token>, key: string, text: string)
    ensures multiset(HoleNames(FillFirst(tokens, key, text))) == multiset(HoleNames(tokens)) - multiset{key}
  {
    if tokens != [] {
      FillFirstUsesOneHole(tokens[1..], key, text);
      if tokens[0] == Hole(key) {
        assert FillFirst(tokens, key, text)[1..] == tokens[1..];
      }
    }
  }

  lemma {:induction false} FillEachUsesHoles(tokens: seq<Token>, params: seq<Param>)
    ensures multiset(HoleNames(FillEach(tokens, params))) == multiset(HoleNames(tokens)) - multiset(Keys(params))
    decreases |params|
  {
    if params != [] {
      FillFirstUsesOneHole(tokens, params[0].key, params[0].text);
      FillEachUsesHoles(FillFirst(tokens, params[0].key, params[0].text), params[1..]);
    }
  }

  // ---------------------------------------------------------------- one at a time is all at once

  lemma OnlyHole(tokens: seq<Token>, key: string)
    requires tokens != [] && multiset(HoleNames(tokens))[key] <= 1
    ensures multiset(HoleNames(tokens[1..]))[key] <= 1
    ensures tokens[0] == Hole(key) ==> key !in HoleNames(tokens[1..])
  {
    var own := if tokens[0].Hole? then [tokens[0].name] else [];
    assert HoleNames(tokens) == own + HoleNames(tokens[1..]);
    assert multiset(HoleNames(tokens)) == multiset(own) + multiset(HoleNames(tokens[1..]));
  }

  lemma SubstituteCons(token: Token, rest: seq<Token>, values: map<string, string>)
    ensures Substitute([token] + rest, values) == [SubstituteOne(token, values)] + Substitute(rest, values)
  {
    assert ([token] + rest)[1..] == rest;
  }

  lemma SubstituteOneMore(token: Token, rest: seq<Token>, key: string, text: string, values: map<string, string>)
    requires key !in values
    requires var filled := if token == Hole(key) then rest else FillFirst(rest, key, text);
             Substitute(filled, values) == Substitute(rest, values[key := text])
    ensures Substitute(FillFirst([token] + rest, key, text), values)
            == Substitute([token] + rest, values[key := text])
  {
    var filled := if token == Hole(key) then rest else FillFirst(rest, key, text);
    var first := if token == Hole(key) then Text(Encode(text)) else token;
    FillFirstCons(token, rest, key, text);
    SubstituteCons(first, filled, values);
    SubstituteCons(token, rest, values[key := text]);
  }

  lemma FillFirstCons(token: Token, rest: seq<Token>, key: string, text: string)
    ensures FillFirst([token] + rest, key, text)
            == if token == Hole(key) then [Text(Encode(text))] + rest else [token] + FillFirst(rest, key, text)
  {
    assert ([token] + rest)[1..] == rest;
  }

  lemma {:induction false} SubstituteAfterFill(tokens: seq<Token>, key: string, text: string,
                                               values: map<string, string>)
    requires multiset(HoleNames(tokens))[key] <= 1 && key !in values
    ensures Substitute(FillFirst(tokens, key, text), values) == Substitute(tokens, values[key := text])
  {
    if tokens != [] {
      OnlyHole(tokens, key);
      if tokens[0] == Hole(key) {
        SubstituteIgnoresAbsent(tokens[1..], key, text, values);
      } else {
        SubstituteAfterFill(tokens[1..], key, text, values);
      }
      SubstituteOneMore(tokens[0], tokens[1..], key, text, values);
      assert tokens == [tokens[0]] + tokens[1..];
    }
  }

  lemma {:induction false} SubstituteIgnoresAbsent(tokens: seq<Token>, key: string, text: string,
                                                   values: map<string, string>)
    requires key !in HoleNames(tokens)
    ensures Substitute(tokens, values) == Substitute(tokens, values[key := text])
  {
    if tokens != [] {
      assert HoleNames(tokens) == (if tokens[0].Hole? then [tokens[0].name] else []) + HoleNames(tokens[1..]);
      SubstituteIgnoresAbsent(tokens[1..], key, text, values);
    }
  }

  lemma {:induction false} SubstituteNothing(tokens: seq<Token>)
    ensures Substitute(tokens, map[]) == tokens
  {
    if tokens != [] {
      SubstituteNothing(tokens[1..]);
    }
  }

  lemma {:induction false} ValuesAndKeys(params: seq<Param>)
    ensures forall k :: k in Values(params) <==> k in Keys(params)
    ensures forall k :: k in Keys(params) <==> exists i :: 0 <= i < |params| && params[i].key == k
  {
    if params != [] {
      ValuesAndKeys(params[1..]);
      forall k
        ensures k in Keys(params) <==> exists i :: 0 <= i < |params| && params[i].key == k
      {
        if k in Keys(params[1..]) {
          var i :| 0 <= i < |params[1..]| && params[1..][i].key == k;
          assert params[i + 1].key == k;
        }
        if i :| 0 <= i < |params| && params[i].key == k {
          assert i > 0 ==> params[1..][i - 1].key == k;
        }
      }
    }
  }

  lemma FirstKeyIsNew(params: seq<Param>)
    requires DistinctKeys(params) && params != []
    ensures DistinctKeys(params[1..])
    ensures params[0].key !in Keys(params[1..]) && params[0].key !in Values(params[1..])
  {
    ValuesAndKeys(params[1..]);
    assert forall i :: 0 <= i < |params| - 1 ==> params[1..][i] == params[i + 1];
  }

  predicate NoneTwice(tokens: seq<Token>, keys: seq<string>) {
    forall k :: k in keys ==> multiset(HoleNames(tokens))[k] <= 1
  }

  lemma FillingLeavesNoneTwice(tokens: seq<Token>, params: seq<Param>)
    requires params != [] && NoneTwice(tokens, Keys(params))
    ensures NoneTwice(FillFirst(tokens, params[0].key, params[0].text), Keys(params[1..]))
    ensures multiset(HoleNames(tokens))[params[0].key] <= 1
  {
    FillFirstUsesOneHole(tokens, params[0].key, params[0].text);
    assert Keys(params)[0] == params[0].key && Keys(params)[1..] == Keys(params[1..]);
  }

  lemma {:induction false} FillEachIsSubstitute(tokens: seq<Token>, params: seq<Param>)
    requires DistinctKeys(params)
    requires NoneTwice(tokens, Keys(params))
    ensures FillEach(tokens, params) == Substitute(tokens, Values(params))
    decreases |params|
  {
    if params == [] {
      SubstituteNothing(tokens);
    } else {
      var key, text, rest := params[0].key, params[0].text, params[1..];
      FirstKeyIsNew(params);
      FillingLeavesNoneTwice(tokens, params);
      FillEachIsSubstitute(FillFirst(tokens, key, text), rest);
      SubstituteAfterFill(tokens, key, text, Values(rest));
    }
  }

  /** Every placeholder has a parameter, and no placeholder occurs twice. */
  ghost predicate EachHoleNamedOnce(tokens: seq<Token>, values: map<string, string>) {
    forall name :: multiset(HoleNames(tokens))[name] <= if name in values then 1 else 0
  }

  lemma {:induction false} DistinctKeysOnce(params: seq<Param>)
    requires DistinctKeys(params)
    ensures forall k :: multiset(Keys(params))[k] == if k in Values(params) then 1 else 0
  {
    if params != [] {
      FirstKeyIsNew(params);
      DistinctKeysOnce(params[1..]);
    }
  }

  lemma AllFilledIffNamedOnce(tokens: seq<Token>, params: seq<Param>)
    requires DistinctKeys(params)
    ensures HoleNames(FillEach(tokens, params)) == [] <==> EachHoleNamedOnce(tokens, Values(params))
  {
    FillEachUsesHoles(tokens, params);
    DistinctKeysOnce(params);
    var holes, keys := multiset(HoleNames(tokens)), multiset(Keys(params));
    assert HoleNames(FillEach(tokens, params)) == [] <==> holes - keys == multiset{} by {
      assert |multiset(HoleNames(FillEach(tokens, params)))| == |HoleNames(FillEach(tokens, params))|;
    }
    assert holes - keys == multiset{} <==> forall name :: holes[name] <= keys[name] by {
      forall name
        ensures (holes - keys)[name] == 0 <==> holes[name] <= keys[name]
      {
      }
    }
  }

  /** The main result: on a well-formed template the path is made exactly when every placeholder has
      a parameter and none occurs twice, and then it is the simultaneous substitution, with no
      placeholder left. Only the parameters' values count, not their order. */
  lemma ReplacingIsSubstituting(tokens: seq<Token>, params: seq<Param>)
    requires WellFormed(tokens) && DistinctKeys(params)
    requires forall i :: 0 <= i < |params| ==> BraceFree(params[i].key)
    ensures !HasPlaceholder(ReplaceEach(Spell(tokens), params)) <==> EachHoleNamedOnce(tokens, Values(params))
    ensures !HasPlaceholder(ReplaceEach(Spell(tokens), params)) ==>
              ReplaceEach(Spell(tokens), params) == Spell(Substitute(tokens, Values(params)))
  {
    ReplaceFillsEach(tokens, params);
    PlaceholderIffHole(FillEach(tokens, params));
    AllFilledIffNamedOnce(tokens, params);
    if EachHoleNamedOnce(tokens, Values(params)) {
      assert NoneTwice(tokens, Keys(params));
      FillEachIsSubstitute(tokens, params);
    }
  }

  lemma OrderOfParametersIsIrrelevant(tokens: seq<Token>, params: seq<Param>, params': seq<Param>)
    requires WellFormed(tokens) && DistinctKeys(params) && DistinctKeys(params')
    requires forall i :: 0 <= i < |params| ==> BraceFree(params[i].key)
    requires forall i :: 0 <= i < |params'| ==> BraceFree(params'[i].key)
    requires Values(params) == Values(params')
    ensures HasPlaceholder(ReplaceEach(Spell(tokens), params)) == HasPlaceholder(ReplaceEach(Spell(tokens), params'))
    ensures !HasPlaceholder(ReplaceEach(Spell(tokens), params)) ==>
              ReplaceEach(Spell(tokens), params) == ReplaceEach(Spell(tokens), params')
  {
    ReplacingIsSubstituting(tokens, params);
    ReplacingIsSubstituting(tokens, params');
  }

  // ---------------------------------------------------------------- slashes

  function Slashes(s: string): nat {
    if s == [] then 0 else (if s[0] == '/' then 1 else 0) + Slashes(s[1..])
  }

  function NamedSlashes(names: seq<string>): nat {
    if names == [] then 0 else Slashes(names[0]) + NamedSlashes(names[1..])
  }

  lemma {:induction false} SlashesConcat(a: string, b: string)
    ensures Slashes(a + b) == Slashes(a) + Slashes(b)
  {
    if a == [] {
      assert a + b == b;
    } else {
      assert (a + b)[1..] == a[1..] + b;
      SlashesConcat(a[1..], b);
    }
  }

  lemma {:induction false} InertHasNoSlash(s: string)
    requires '/' !in s
    ensures Slashes(s) == 0
  {
    if s != [] {
      InertHasNoSlash(s[1..]);
    }
  }

  /** No parameter can add or remove a path segment: the path has the slashes of the template, less
      those inside the names of its placeholders. */
  lemma {:induction false} SlashesAreKept(tokens: seq<Token>, values: map<string, string>)
    requires forall name :: name in HoleNames(tokens) ==> name in values
    ensures Slashes(Spell(Substitute(tokens, values))) + NamedSlashes(HoleNames(tokens)) == Slashes(Spell(tokens))
  {
    if tokens != [] {
      var rest := tokens[1..];
      SlashesAreKept(rest, values);
      match tokens[0]
      case Text(t) =>
        assert HoleNames(tokens) == HoleNames(rest);
        SlashesConcat(t, Spell(rest));
        SlashesConcat(t, Spell(Substitute(rest, values)));
      case Hole(n) =>
        assert n in HoleNames(tokens);
        EncodeIsInert(values[n]);
        InertHasNoSlash(Encode(values[n]));
        SlashesConcat(Encode(values[n]), Spell(Substitute(rest, values)));
        SlashesConcat("{", n);
        SlashesConcat("{" + n, "}");
        SlashesConcat("{" + n + "}", Spell(rest));
        assert (HoleNames(tokens))[1..] == HoleNames(rest);
    }
  }

  /** So a path that is made has exactly those slashes. */
  lemma PathKeepsSlashes(tokens: seq<Token>, params: seq<Param>)
    requires WellFormed(tokens) && DistinctKeys(params)
    requires forall i :: 0 <= i < |params| ==> BraceFree(params[i].key)
    ensures var path := ReplaceEach(Spell(tokens), params);
            !HasPlaceholder(path) ==> Slashes(path) + NamedSlashes(HoleNames(tokens)) == Slashes(Spell(tokens))
  {
    ReplacingIsSubstituting(tokens, params);
    if !HasPlaceholder(ReplaceEach(Spell(tokens), params)) {
      forall name | name in HoleNames(tokens)
        ensures name in Values(params)
      {
        assert multiset(HoleNames(tokens))[name] > 0;
      }
      SlashesAreKept(tokens, Values(params));
    }
  }
}

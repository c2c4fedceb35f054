/** `sign_parameters` and `_signed` of `inc/adapters/payments/epay.py`. */
module EpaySignature {
  import opened Dicts
  import opened SortedKeys
  import opened Text
  import opened Wrappers

  /** A parameter value as the callers pass it. */
  datatype Value = Nothing | Flag(b: bool) | Whole(n: int) | Words(s: string)

  /** `str(value)`. */
  function Str(v: Value): string {
    match v
    case Nothing => "None"
    case Flag(b) => if b then "True" else "False"
    case Whole(n) => IntText(n)
    case Words(s) => s
  }

  /** `str` of the constants that occur as values. */
  lemma ConstantsPrint()
    ensures Str(Nothing) == "None" && Str(Flag(true)) == "True" && Str(Flag(false)) == "False"
    ensures forall s :: Str(Words(s)) == s
  {
  }

  // ---------------------------------------------------------------- the canonical text

  const UNSIGNED := {"sign", "sign_type"}

  /** `value not in (None, False, 0, "", "0")`. */
  predicate Counts(v: Value) {
    v !in {Nothing, Flag(false), Whole(0), Words(""), Words("0")}
  }

  /** The entry takes part in the signature. */
  predicate Survives(d: Dict<Value>, key: string, v: Value) {
    key !in UNSIGNED && Get(d, key) == Some(v) && Counts(v)
  }

  predicate SurvivingKey(d: Dict<Value>, key: string) {
    key !in UNSIGNED && Get(d, key).Some? && Counts(Get(d, key).value)
  }

  function Surviving(d: Dict<Value>): string -> bool {
    k => SurvivingKey(d, k)
  }

  function Fragments(d: Dict<Value>, keys: seq<string>): seq<string> {
    if keys == [] then []
    else (if SurvivingKey(d, keys[0]) then [keys[0] + "=" + Str(Get(d, keys[0]).value)] else [])
         + Fragments(d, keys[1..])
  }

  function Canonical(d: Dict<Value>): string {
    Join(Fragments(d, Sort(Keys(d))), "&")
  }

  /** The digest is a parameter: nothing here depends on which one it is. */
  function SignParameters(d: Dict<Value>, merchantKey: string, md5: string -> string): string {
    md5(Canonical(d) + merchantKey)
  }

  // ---------------------------------------------------------------- it depends on survivors only

  lemma {:induction false} DropsDoNotPrint(d: Dict<Value>, keys: seq<string>)
    ensures Fragments(d, keys) == Fragments(d, Filter(keys, Surviving(d)))
  {
    if keys != [] {
      DropsDoNotPrint(d, keys[1..]);
      if SurvivingKey(d, keys[0]) {
        var kept := Filter(keys[1..], Surviving(d));
        assert ([keys[0]] + kept)[1..] == kept;
      } else {
        assert Filter(keys, Surviving(d)) == Filter(keys[1..], Surviving(d));
        assert Fragments(d, keys) == Fragments(d, keys[1..]);
      }
    }
  }

  /** The same keys survive in both, and their values print alike. */
  ghost predicate SamePrints(d: Dict<Value>, d': Dict<Value>) {
    forall k :: (SurvivingKey(d, k) <==> SurvivingKey(d', k))
                && (SurvivingKey(d, k) ==> Str(Get(d, k).value) == Str(Get(d', k).value))
  }

  lemma {:induction false} SameEntriesPrintAlike(d: Dict<Value>, d': Dict<Value>, keys: seq<string>)
    requires SamePrints(d, d')
    ensures Fragments(d, keys) == Fragments(d', keys)
  {
    if keys != [] {
      SameEntriesPrintAlike(d, d', keys[1..]);
      assert SurvivingKey(d, keys[0]) <==> SurvivingKey(d', keys[0]);
    }
  }

  function SortedSurvivors(d: Dict<Value>): seq<string> {
    Filter(Sort(Keys(d)), Surviving(d))
  }

  lemma SurvivingKeysSorted(d: Dict<Value>)
    requires IsDict(d)
    ensures var kept := SortedSurvivors(d);
            Increasing(kept) && forall k :: k in kept <==> SurvivingKey(d, k)
  {
    SortIsIncreasing(Keys(d));
    FilterIsIncreasing(Sort(Keys(d)), Surviving(d));
    forall k {
      GetFindsKeys(d, k);
    }
  }

  /** The text that is signed depends only on the entries that survive: neither the order in which
      the dict was filled nor any `sign`, `sign_type`, empty or zero entry has a part in it. */
  lemma CanonicalDependsOnSurvivors(d: Dict<Value>, d': Dict<Value>)
    requires IsDict(d) && IsDict(d')
    requires forall k, v :: Survives(d, k, v) <==> Survives(d', k, v)
    ensures Canonical(d) == Canonical(d')
  {
    forall k
      ensures SurvivingKey(d, k) <==> SurvivingKey(d', k)
      ensures SurvivingKey(d, k) ==> Str(Get(d, k).value) == Str(Get(d', k).value)
    {
      if SurvivingKey(d, k) {
        assert Survives(d, k, Get(d, k).value);
      }
      if SurvivingKey(d', k) {
        assert Survives(d', k, Get(d', k).value);
      }
    }
    SamePrintsSameText(d, d');
  }

  lemma SamePrintsSameText(d: Dict<Value>, d': Dict<Value>)
    requires IsDict(d) && IsDict(d') && SamePrints(d, d')
    ensures Canonical(d) == Canonical(d')
  {
    SurvivingKeysSorted(d);
    SurvivingKeysSorted(d');
    IncreasingIsUnique(SortedSurvivors(d), SortedSurvivors(d'));
    DropsDoNotPrint(d, Sort(Keys(d)));
    DropsDoNotPrint(d', Sort(Keys(d')));
    SameEntriesPrintAlike(d, d', SortedSurvivors(d));
  }

  // ---------------------------------------------------------------- when it determines them

  /** No surviving key holds a separator, and no surviving value an ampersand. */
  ghost predicate Plain(d: Dict<Value>) {
    forall k :: SurvivingKey(d, k) ==> '=' !in k && '&' !in k && '&' !in Str(Get(d, k).value)
  }

  predicate IsPart(s: string) {
    s != "" && '&' !in s
  }

  lemma JoinHead(parts: seq<string>)
    requires parts != [] && forall i :: 0 <= i < |parts| ==> IsPart(parts[i])
    ensures var text := Join(parts, "&");
            && IndexOf(text, '&') == |parts[0]| && text[..|parts[0]|] == parts[0]
            && (|parts| == 1 <==> |text| == |parts[0]|)
            && (|parts| > 1 ==> text[|parts[0]| + 1..] == Join(parts[1..], "&"))
  {
    var text := Join(parts, "&");
    if |parts| == 1 {
      AbsentHasNoIndex(text, '&');
    } else {
      assert text == parts[0] + "&" + Join(parts[1..], "&");
      assert text[..|parts[0]|] == parts[0] && text[|parts[0]|] == '&';
      FirstIndexIsUnique(text, '&', |parts[0]|);
    }
  }

  /** A joined text has one way to be taken apart at its ampersands. */
  lemma {:induction false} JoinIsInjective(a: seq<string>, b: seq<string>)
    requires forall i :: 0 <= i < |a| ==> IsPart(a[i])
    requires forall i :: 0 <= i < |b| ==> IsPart(b[i])
    requires Join(a, "&") == Join(b, "&")
    ensures a == b
  {
    if a != [] {
      JoinHead(a);
    }
    if b != [] {
      JoinHead(b);
    }
    if a != [] && b != [] {
      assert a[0] == b[0];
      if |a| > 1 {
        JoinIsInjective(a[1..], b[1..]);
      }
      assert a == [a[0]] + a[1..] && b == [b[0]] + b[1..];
    }
  }

  function Printed(d: Dict<Value>, key: string): string
    requires Get(d, key).Some?
  {
    key + "=" + Str(Get(d, key).value)
  }

  lemma {:induction false} FragmentOfEach(d: Dict<Value>, keys: seq<string>)
    requires forall i :: 0 <= i < |keys| ==> SurvivingKey(d, keys[i])
    ensures |Fragments(d, keys)| == |keys|
    ensures forall i :: 0 <= i < |keys| ==>
              SurvivingKey(d, keys[i]) && Fragments(d, keys)[i] == Printed(d, keys[i])
  {
    if keys != [] {
      FragmentOfEach(d, keys[1..]);
      assert Fragments(d, keys) == [Printed(d, keys[0])] + Fragments(d, keys[1..]);
    }
  }

  lemma PrintedIsInjective(d: Dict<Value>, d': Dict<Value>, key: string, key': string)
    requires Get(d, key).Some? && Get(d', key').Some? && '=' !in key && '=' !in key'
    requires Printed(d, key) == Printed(d', key')
    ensures key == key' && Str(Get(d, key).value) == Str(Get(d', key').value)
  {
    var text := Printed(d, key);
    assert text[..|key|] == key && text[|key|] == '=' && text[|key| + 1..] == Str(Get(d, key).value);
    FirstIndexIsUnique(text, '=', |key|);
    assert text[..|key'|] == key' && text[|key'|] == '=' && text[|key'| + 1..] == Str(Get(d', key').value);
    FirstIndexIsUnique(text, '=', |key'|);
  }

  lemma SurvivorsPrint(d: Dict<Value>)
    requires IsDict(d)
    ensures var kept := SortedSurvivors(d);
            && (forall k :: SurvivingKey(d, k) ==> k in kept)
            && Canonical(d) == Join(Fragments(d, kept), "&")
            && |Fragments(d, kept)| == |kept|
            && forall i :: 0 <= i < |kept| ==>
                 SurvivingKey(d, kept[i]) && Fragments(d, kept)[i] == Printed(d, kept[i])
  {
    SurvivingKeysSorted(d);
    DropsDoNotPrint(d, Sort(Keys(d)));
    var kept := SortedSurvivors(d);
    assert forall i :: 0 <= i < |kept| ==> kept[i] in kept;
    FragmentOfEach(d, kept);
  }

  /** The signed text, given the surviving keys in order. */
  lemma CanonicalOf(d: Dict<Value>, keys: seq<string>)
    requires IsDict(d) && Increasing(keys) && forall k :: k in keys <==> SurvivingKey(d, k)
    ensures Canonical(d) == Join(Fragments(d, keys), "&") && |Fragments(d, keys)| == |keys|
    ensures forall i :: 0 <= i < |keys| ==>
              SurvivingKey(d, keys[i]) && Fragments(d, keys)[i] == Printed(d, keys[i])
  {
    SurvivorsPrint(d);
    SurvivingKeysSorted(d);
    IncreasingIsUnique(keys, SortedSurvivors(d));
  }

  /** An entry that is signed: not the signature itself, and not one of the values that count as empty. */
  predicate IsSignable(key: string, v: Value) {
    && key != "sign" && key != "sign_type"
    && !v.Nothing? && v != Flag(false) && v != Whole(0) && v != Words("") && v != Words("0")
  }

  lemma SurvivingAt(d: Dict<Value>, i: nat)
    requires IsDict(d) && i < |d|
    ensures Get(d, d[i].0) == Some(d[i].1)
    ensures SurvivingKey(d, d[i].0) <==> IsSignable(d[i].0, d[i].1)
  {
    GetAt(d, i);
  }

  /** The entry at `i` is the one under this key, it is signed, and this is how it is printed. */
  predicate PrintsAs(d: Dict<Value>, i: nat, key: string, part: string)
    requires i < |d|
  {
    && d[i].0 == key && IsSignable(key, d[i].1)
    && part == key + "=" + Str(d[i].1)
  }

  predicate IsPrinted(d: Dict<Value>, key: string, part: string) {
    exists i :: 0 <= i < |d| && PrintsAs(d, i, key, part)
  }

  lemma PrintedSomewhere(d: Dict<Value>, key: string)
    requires IsDict(d) && SurvivingKey(d, key)
    ensures IsPrinted(d, key, Printed(d, key))
  {
    GetFindsKeys(d, key);
    KeysByIndex(d);
    var i :| 0 <= i < |Keys(d)| && Keys(d)[i] == key;
    SurvivingAt(d, i);
    assert PrintsAs(d, i, key, Printed(d, key));
  }

  /** The signed text, entry by entry: the signed entries' keys in increasing order, each with its value
      behind an equals sign, joined by ampersands. */
  lemma CanonicalMeans(d: Dict<Value>) returns (keys: seq<string>, parts: seq<string>)
    requires IsDict(d)
    ensures Canonical(d) == Join(parts, "&") && |parts| == |keys| && Increasing(keys)
    ensures forall i :: 0 <= i < |d| ==> (d[i].0 in keys <==> IsSignable(d[i].0, d[i].1))
    ensures forall j :: 0 <= j < |keys| ==> IsPrinted(d, keys[j], parts[j])
  {
    SurvivingKeysSorted(d);
    SurvivorsPrint(d);
    keys := SortedSurvivors(d);
    parts := Fragments(d, keys);
    forall i | 0 <= i < |d|
      ensures d[i].0 in keys <==> IsSignable(d[i].0, d[i].1)
    {
      SurvivingAt(d, i);
    }
    forall j | 0 <= j < |keys|
      ensures IsPrinted(d, keys[j], parts[j])
    {
      assert SurvivingKey(d, keys[j]) && parts[j] == Printed(d, keys[j]);
      PrintedSomewhere(d, keys[j]);
    }
  }

  lemma PlainParts(d: Dict<Value>)
    requires IsDict(d) && Plain(d)
    ensures var parts := Fragments(d, SortedSurvivors(d)); forall i :: 0 <= i < |parts| ==> IsPart(parts[i])
  {
    SurvivorsPrint(d);
    var kept := SortedSurvivors(d);
    forall i | 0 <= i < |kept|
      ensures IsPart(Printed(d, kept[i]))
    {
      assert SurvivingKey(d, kept[i]);
    }
  }

  /** Among parameters without separators the signed text says exactly which entries survive and how they
      print. */
  lemma CanonicalSameIff(d: Dict<Value>, d': Dict<Value>)
    requires IsDict(d) && IsDict(d') && Plain(d) && Plain(d')
    ensures Canonical(d) == Canonical(d') <==> SamePrints(d, d')
  {
    if SamePrints(d, d') {
      SamePrintsSameText(d, d');
    }
    if Canonical(d) == Canonical(d') {
      SameTextSamePrints(d, d');
    }
  }

  lemma SameTextSamePrints(d: Dict<Value>, d': Dict<Value>)
    requires IsDict(d) && IsDict(d') && Plain(d) && Plain(d') && Canonical(d) == Canonical(d')
    ensures SamePrints(d, d')
  {
    var kept, kept' := SortedSurvivors(d), SortedSurvivors(d');
    SurvivorsPrint(d);
    SurvivorsPrint(d');
    PlainParts(d);
    PlainParts(d');
    JoinIsInjective(Fragments(d, kept), Fragments(d', kept'));
    forall i | 0 <= i < |kept|
      ensures kept[i] == kept'[i] && Str(Get(d, kept[i]).value) == Str(Get(d', kept[i]).value)
    {
      assert SurvivingKey(d, kept[i]) && SurvivingKey(d', kept'[i]);
      PrintedIsInjective(d, d', kept[i], kept'[i]);
    }
    assert kept == kept';
    forall k
      ensures SurvivingKey(d, k) <==> SurvivingKey(d', k)
      ensures SurvivingKey(d, k) ==> Str(Get(d, k).value) == Str(Get(d', k).value)
    {
      if k in kept {
        var i :| 0 <= i < |kept| && kept[i] == k;
      }
    }
  }

  /** With a separator inside a value two different dicts can have one text. */
  lemma SeparatorsCollide()
    ensures var one, two := [("a", Words("1&b=2"))], [("a", Words("1")), ("b", Words("2"))];
            IsDict(one) && IsDict(two) && Canonical(one) == Canonical(two) && !SamePrints(one, two)
  {
    var one, two := [("a", Words("1&b=2"))], [("a", Words("1")), ("b", Words("2"))];
    assert one[1..] == [] && two[1..] == [("b", Words("2"))] && two[1..][1..] == [];
    assert Keys(one) == ["a"] && Keys(two[1..]) == ["b"] && Keys(two) == ["a", "b"];
    assert ["a"][1..] == [] && ["b"][1..] == [] && ["a", "b"][1..] == ["b"];
    assert Less("a", "b") && Sort(["b"]) == ["b"];
    assert Sort(["a"]) == ["a"] && Sort(["a", "b"]) == ["a", "b"];
    assert Fragments(two, ["b"]) == ["b" + "=" + "2"];
    assert Fragments(one, ["a"]) == ["a" + "=" + "1&b=2"];
    assert Fragments(two, ["a", "b"]) == ["a" + "=" + "1", "b" + "=" + "2"];
    assert SurvivingKey(two, "b") && !SurvivingKey(one, "b");
  }

  // ---------------------------------------------------------------- signing

  /** `{key: str(value) for key, value in values.items() if value is not None}`. */
  function Stringified(d: Dict<Value>): Dict<string> {
    if d == [] then []
    else (if d[0].1.Nothing? then [] else [(d[0].0, Str(d[0].1))]) + Stringified(d[1..])
  }

  function AsWords(d: Dict<string>): Dict<Value> {
    if d == [] then [] else [(d[0].0, Words(d[0].1))] + AsWords(d[1..])
  }

  function SignedParameters(values: Dict<Value>, merchantKey: string, md5: string -> string): Dict<string> {
    var texts := Stringified(values);
    Put(Put(texts, "sign", SignParameters(AsWords(texts), merchantKey, md5)), "sign_type", "MD5")
  }

  lemma {:induction false} StringifiedConcat(a: Dict<Value>, b: Dict<Value>)
    ensures Stringified(a + b) == Stringified(a) + Stringified(b)
  {
    if a == [] {
      assert a + b == b;
    } else {
      assert (a + b)[1..] == a[1..] + b;
      StringifiedConcat(a[1..], b);
    }
  }

  method Signed(values: Dict<Value>, merchantKey: string, md5: string -> string) returns (signed: Dict<string>)
    ensures signed == SignedParameters(values, merchantKey, md5)
  {
    signed := [];
    for i := 0 to |values|
      invariant signed == Stringified(values[..i])
    {
      assert values[..i + 1] == values[..i] + [values[i]];
      StringifiedConcat(values[..i], [values[i]]);
      if !values[i].1.Nothing? {
        signed := signed + [(values[i].0, Str(values[i].1))];
      }
    }
    assert values[..|values|] == values;
    var signature := SignParameters(AsWords(signed), merchantKey, md5);
    signed := Put(signed, "sign", signature);
    signed := Put(signed, "sign_type", "MD5");
  }

  // ---------------------------------------------------------------- dict facts

  lemma {:induction false} AsWordsKeeps(d: Dict<string>, key: string)
    ensures Keys(AsWords(d)) == Keys(d)
    ensures Get(AsWords(d), key) == if Get(d, key).Some? then Some(Words(Get(d, key).value)) else None
  {
    if d != [] {
      AsWordsKeeps(d[1..], key);
    }
  }

  lemma {:induction false} StringifiedIsDict(d: Dict<Value>)
    requires IsDict(d)
    ensures IsDict(Stringified(d))
    ensures forall k :: k in Keys(Stringified(d)) ==> k in Keys(d)
    ensures forall k :: Get(Stringified(d), k) ==
              if Get(d, k).Some? && !Get(d, k).value.Nothing? then Some(Str(Get(d, k).value)) else None
  {
    if d != [] {
      var tail := d[1..];
      assert Keys(d) == [d[0].0] + Keys(tail) && Keys(d)[1..] == Keys(tail);
      DistinctTail(Keys(d));
      StringifiedIsDict(tail);
      GetFindsKeys(tail, d[0].0);
      if !d[0].1.Nothing? {
        var first := (d[0].0, Str(d[0].1));
        assert Stringified(d)[1..] == Stringified(tail);
        DistinctCons(d[0].0, Keys(Stringified(tail)));
      } else {
        assert Stringified(d) == Stringified(tail);
      }
    }
  }

  /** A signed dict carries a signature that matches it: the two entries added after signing are
      not among the entries that are signed. */
  lemma SignedVerifies(values: Dict<Value>, merchantKey: string, md5: string -> string)
    requires IsDict(values)
    ensures var signed := SignedParameters(values, merchantKey, md5);
            && IsDict(signed)
            && Get(signed, "sign") == Some(SignParameters(AsWords(signed), merchantKey, md5))
            && Get(signed, "sign_type") == Some("MD5")
            && forall k :: k !in UNSIGNED ==>
                 Get(signed, k) == if Get(values, k).Some? && !Get(values, k).value.Nothing?
                                   then Some(Str(Get(values, k).value)) else None
  {
    var texts := Stringified(values);
    var signature := SignParameters(AsWords(texts), merchantKey, md5);
    var once := Put(texts, "sign", signature);
    var signed := Put(once, "sign_type", "MD5");
    StringifiedIsDict(values);
    PutIsDict(texts, "sign", signature);
    PutIsDict(once, "sign_type", "MD5");
    forall k
      ensures Get(signed, k) == if k == "sign_type" then Some("MD5")
                                else if k == "sign" then Some(signature) else Get(texts, k)
      ensures k !in UNSIGNED ==> Get(AsWords(signed), k) == Get(AsWords(texts), k)
      ensures Keys(AsWords(signed)) == Keys(signed) && Keys(AsWords(texts)) == Keys(texts)
    {
      GetAfterPut(texts, "sign", signature, k);
      GetAfterPut(once, "sign_type", "MD5", k);
      AsWordsKeeps(signed, k);
      AsWordsKeeps(texts, k);
    }
    CanonicalDependsOnSurvivors(AsWords(signed), AsWords(texts));
  }
}

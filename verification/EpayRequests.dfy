/** The requests that `inc/adapters/payments/epay.py` signs with the key of its notifications, and why a
    notification it accepts is none of them. */
module EpayRequests {
  import opened Dicts
  import opened EpaySignature
  import opened EpayWebhook
  import opened SortedKeys
  import opened Text
  import opened Wrappers

  /** The requests that the adapter signs with the same key. */
  datatype OwnRequest =
    | Payment(paymentType: string, orderReference: string, notifyUrl: string, returnUrl: string,
              description: string, money: string, clientIp: string)
    | Status(providerRef: string)
    | Refund(paymentRef: string, money: string)

  function Parameters(own: OwnRequest, config: Config): Dict<string> {
    match own
    case Payment(paymentType, orderReference, notifyUrl, returnUrl, description, money, clientIp) =>
      [("pid", config.merchantId), ("type", paymentType), ("out_trade_no", orderReference),
       ("notify_url", notifyUrl), ("return_url", returnUrl), ("name", description), ("money", money),
       ("clientip", if clientIp == "" then "127.0.0.1" else clientIp)]
    case Status(providerRef) =>
      [("act", "order"), ("pid", config.merchantId), ("trade_no", providerRef)]
    case Refund(paymentRef, money) =>
      [("pid", config.merchantId), ("trade_no", paymentRef), ("money", money)]
  }

  // ---------------------------------------------------------------- the parts of a signed text

  /** The parts of a text between its ampersands. */
  function Split(text: string): (parts: seq<string>)
    ensures parts != []
  {
    var i := IndexOf(text, '&');
    if i == |text| then [text] else [text[..i]] + Split(text[i + 1..])
  }

  lemma SplitAt(text: string, i: nat)
    requires i < |text| && text[i] == '&' && '&' !in text[..i]
    ensures Split(text) == [text[..i]] + Split(text[i + 1..])
  {
    FirstIndexIsUnique(text, '&', i);
  }

  lemma SplitNowhere(text: string)
    requires '&' !in text
    ensures Split(text) == [text]
  {
    AbsentHasNoIndex(text, '&');
  }

  lemma BeforeAndAfter(a: string, b: string, i: nat)
    requires i <= |a|
    ensures var text := a + "&" + b;
            && text[..i] == a[..i] && text[i] == (if i == |a| then '&' else a[i])
            && text[i + 1..] == if i == |a| then b else a[i + 1..] + "&" + b
  {
  }

  /** The first part and the rest, of a text and of a longer one. */
  lemma SplitLonger(a: string, b: string, i: nat)
    requires i < |a| && a[i] == '&' && '&' !in a[..i]
    ensures Split(a + "&" + b) == [a[..i]] + Split(a[i + 1..] + "&" + b)
  {
    BeforeAndAfter(a, b, i);
    SplitAt(a + "&" + b, i);
  }

  lemma SplitLast(a: string, b: string)
    requires '&' !in a
    ensures Split(a + "&" + b) == [a] + Split(b)
  {
    BeforeAndAfter(a, b, |a|);
    assert a[..|a|] == a;
    SplitAt(a + "&" + b, |a|);
  }

  lemma Regrouped(head: string, tail: seq<string>, tail': seq<string>, whole: seq<string>)
    requires whole == [head] + (tail + tail')
    ensures whole == ([head] + tail) + tail'
  {
  }

  lemma {:induction false} SplitConcat(a: string, b: string)
    ensures Split(a + "&" + b) == Split(a) + Split(b)
    decreases |a|
  {
    var i := IndexOf(a, '&');
    if i == |a| {
      assert a[..i] == a;
      SplitLast(a, b);
      SplitNowhere(a);
    } else {
      SplitConcat(a[i + 1..], b);
      SplitLonger(a, b, i);
      Regrouped(a[..i], Split(a[i + 1..]), Split(b), Split(a + "&" + b));
    }
  }

  /** The parts of a joined text are those of the texts it joins. */
  lemma {:induction false} PartOfJoin(texts: seq<string>, part: string)
    requires texts != []
    ensures part in Split(Join(texts, "&")) <==> exists i :: 0 <= i < |texts| && part in Split(texts[i])
  {
    if |texts| > 1 {
      SplitConcat(texts[0], Join(texts[1..], "&"));
      PartOfJoin(texts[1..], part);
      assert forall i :: 0 <= i < |texts| - 1 ==> texts[1..][i] == texts[i + 1];
      if i :| 0 <= i < |texts| && part in Split(texts[i]) {
        assert i > 0 ==> part in Split(texts[1..][i - 1]);
      }
    }
  }

  /** The entry is signed and has the part in what it prints. */
  predicate SpelledUnder(d: Dict<Value>, key: string, part: string) {
    SurvivingKey(d, key) && part in Split(Printed(d, key))
  }

  /** No entry has: a caller can look at each by itself. */
  ghost predicate SpelledNowhere(d: Dict<Value>, part: string) {
    forall key :: !SpelledUnder(d, key, part)
  }

  /** The parts of a signed text are those of its printed entries. */
  lemma PartOfSignedText(d: Dict<Value>, part: string)
    requires IsDict(d) && part != ""
    ensures part in Split(Canonical(d)) <==> !SpelledNowhere(d, part)
  {
    var kept := SortedSurvivors(d);
    var texts := Fragments(d, kept);
    SurvivorsPrint(d);
    if kept == [] {
      SplitNowhere("");
    } else {
      PartOfJoin(texts, part);
      if key :| SpelledUnder(d, key, part) {
        var i :| 0 <= i < |kept| && kept[i] == key;
        assert part in Split(texts[i]);
      }
      if i :| 0 <= i < |texts| && part in Split(texts[i]) {
        assert SpelledUnder(d, kept[i], part);
      }
    }
  }

  /** Printed entries without a second `=` before it have their keys in common if they are equal. */
  lemma KeysOfEqualEntries(key: string, text: string, other: string, value: string)
    requires '=' !in key && '=' !in other && key + "=" + text == other + "=" + value
    ensures key == other
  {
    var printed := key + "=" + text;
    assert printed[..|key|] == key && printed[|key|] == '=';
    FirstIndexIsUnique(printed, '=', |key|);
    assert printed[..|other|] == other && printed[|other|] == '=';
    FirstIndexIsUnique(printed, '=', |other|);
  }

  // ---------------------------------------------------------------- no status, no notification

  /** The entry that every accepted notification signs. */
  const STATUS := "trade_status" + "=" + "TRADE_SUCCESS"

  lemma StatusIsOnePart()
    ensures '&' !in STATUS
  {
  }

  lemma SignedSpellsItself(query: Dict<string>, key: string, text: string)
    requires key !in UNSIGNED && text !in {"", "0"} && Get(query, key) == Some(text)
    requires '&' !in key + "=" + text
    ensures SpelledUnder(AsWords(query), key, key + "=" + text)
  {
    AsWordsKeeps(query, key);
    SignedUnlessZero(query, key);
    SplitNowhere(key + "=" + text);
  }

  lemma SignedStatusIsPart(query: Dict<string>)
    requires IsDict(query) && Get(query, "trade_status") == Some("TRADE_SUCCESS")
    ensures !SpelledNowhere(AsWords(query), STATUS)
  {
    StatusIsOnePart();
    SignedSpellsItself(query, "trade_status", "TRADE_SUCCESS");
  }

  lemma AcceptedTextHasStatus(request: Request, config: Config, md5: string -> string)
    requires IsDict(request.query)
    ensures Verify(request, config, md5).Success? ==> STATUS in Split(Canonical(AsWords(request.query)))
  {
    if Verify(request, config, md5).Success? {
      AcceptedIff(request, config, md5, Verify(request, config, md5).value);
      SignedStatusIsPart(request.query);
      AsWordsKeeps(request.query, "");
      PartOfSignedText(AsWords(request.query), STATUS);
    }
  }

  /** Parameters of which no entry spells the status never have the signed text of an accepted
      notification, whatever keys and values its sender chooses. */
  lemma NoStatusNoNotification(texts: Dict<string>, request: Request, config: Config, md5: string -> string)
    requires IsDict(texts) && IsDict(request.query) && SpelledNowhere(AsWords(texts), STATUS)
    ensures Verify(request, config, md5).Success? ==> Canonical(AsWords(texts)) != Canonical(AsWords(request.query))
  {
    AsWordsKeeps(texts, "");
    PartOfSignedText(AsWords(texts), STATUS);
    AcceptedTextHasStatus(request, config, md5);
  }

  lemma PlainSpellsOnlyItself(d: Dict<Value>, other: string, value: string)
    requires Plain(d) && !SurvivingKey(d, other) && '=' !in other
    ensures SpelledNowhere(d, other + "=" + value)
  {
    forall key | SurvivingKey(d, key)
      ensures !SpelledUnder(d, key, other + "=" + value)
    {
      SplitNowhere(Printed(d, key));
      if Printed(d, key) == other + "=" + value {
        KeysOfEqualEntries(key, Str(Get(d, key).value), other, value);
        assert false;
      }
    }
  }

  /** Plain parameters without a signed status are such parameters. */
  lemma PlainSpellsNoStatus(texts: Dict<string>)
    requires Plain(AsWords(texts)) && !IsSigned(texts, "trade_status")
    ensures SpelledNowhere(AsWords(texts), STATUS)
  {
    PlainSpellsOnlyItself(AsWords(texts), "trade_status", "TRADE_SUCCESS");
  }

  // ---------------------------------------------------------------- the adapter's own requests

  /** A key that is signed, has no separator and is not the status. */
  predicate IsOwnKey(key: string) {
    key !in UNSIGNED && key != "trade_status" && '&' !in key && '=' !in key
  }

  lemma OwnKeys(own: OwnRequest, config: Config, i: nat)
    requires i < |Parameters(own, config)|
    ensures IsOwnKey(Parameters(own, config)[i].0)
  {
  }

  /** The keys of its requests are distinct, and none is the status. */
  lemma OwnRequestsHaveNoStatus(own: OwnRequest, config: Config)
    ensures IsDict(Parameters(own, config)) && Get(Parameters(own, config), "trade_status") == None
  {
    KeysByIndex(Parameters(own, config));
    GetFindsKeys(Parameters(own, config), "trade_status");
  }

  /** What the adapter signs as a request of its own is not the text of any notification it accepts, if
      no field of the request spells the status. */
  lemma OwnRequestIsNoNotification(own: OwnRequest, request: Request, config: Config, md5: string -> string)
    requires IsDict(request.query) && SpelledNowhere(AsWords(Parameters(own, config)), STATUS)
    ensures Verify(request, config, md5).Success? ==>
              Canonical(AsWords(Parameters(own, config))) != Canonical(AsWords(request.query))
  {
    OwnRequestsHaveNoStatus(own, config);
    NoStatusNoNotification(Parameters(own, config), request, config, md5);
  }

  /** A value has a part of its own, after some ampersand. */
  predicate SpellsPart(text: string, part: string) {
    part in Split(text)[1..]
  }

  /** Printing puts the key before the value's first part and leaves the others. */
  lemma PrintedParts(key: string, text: string)
    requires '&' !in key
    ensures Split(key + "=" + text) == [key + "=" + Split(text)[0]] + Split(text)[1..]
  {
    var printed, i := key + "=" + text, IndexOf(text, '&');
    var at := |key| + 1 + i;
    assert printed[..at] == key + "=" + text[..i];
    if i == |text| {
      SplitNowhere(printed);
      SplitNowhere(text);
    } else {
      assert printed[at + 1..] == text[i + 1..];
      SplitAt(printed, at);
      SplitAt(text, i);
    }
  }

  lemma EntrySpells(key: string, text: string, other: string, value: string)
    requires '&' !in key && '=' !in key && '=' !in other && key != other
    ensures other + "=" + value in Split(key + "=" + text) <==> SpellsPart(text, other + "=" + value)
  {
    PrintedParts(key, text);
    var first := Split(text)[0];
    if key + "=" + first == other + "=" + value {
      KeysOfEqualEntries(key, first, other, value);
      assert false;
    }
  }

  lemma NoAmpersandNoPart(text: string, part: string)
    requires '&' !in text
    ensures !SpellsPart(text, part)
  {
    SplitNowhere(text);
  }

  lemma FieldSpells(texts: Dict<string>, i: nat, other: string, value: string)
    requires IsDict(texts) && i < |texts|
    requires texts[i].0 !in UNSIGNED && texts[i].0 != other
    requires '&' !in texts[i].0 && '=' !in texts[i].0 && '=' !in other
    ensures SpellsPart(texts[i].1, other + "=" + value) <==>
              SpelledUnder(AsWords(texts), texts[i].0, other + "=" + value)
  {
    var (key, text) := texts[i];
    var d, part := AsWords(texts), other + "=" + value;
    GetAt(texts, i);
    AsWordsKeeps(texts, key);
    SignedUnlessZero(texts, key);
    assert Printed(d, key) == key + "=" + text;
    EntrySpells(key, text, other, value);
    if text in {"", "0"} {
      NoAmpersandNoPart(text, part);
    }
  }

  lemma SurvivingHasIndex(texts: Dict<string>, key: string) returns (i: nat)
    requires SurvivingKey(AsWords(texts), key)
    ensures i < |texts| && texts[i].0 == key
  {
    AsWordsKeeps(texts, key);
    GetFindsKeys(texts, key);
    KeysByIndex(texts);
    i :| 0 <= i < |texts| && Keys(texts)[i] == key;
  }

  lemma SpelledSomewhere(texts: Dict<string>, part: string)
    ensures SpelledNowhere(AsWords(texts), part) <==>
              forall i :: 0 <= i < |texts| ==> !SpelledUnder(AsWords(texts), texts[i].0, part)
  {
    if key :| SpelledUnder(AsWords(texts), key, part) {
      var i := SurvivingHasIndex(texts, key);
      assert SpelledUnder(AsWords(texts), texts[i].0, part);
    }
  }

  /** The exact condition on a request: the status is a part of its signed text if and only if some field
      spells it. */
  lemma OwnTextHasStatusIff(own: OwnRequest, config: Config)
    ensures var texts := Parameters(own, config);
            && (STATUS in Split(Canonical(AsWords(texts))) <==> !SpelledNowhere(AsWords(texts), STATUS))
            && (SpelledNowhere(AsWords(texts), STATUS) <==>
                forall i :: 0 <= i < |texts| ==> !SpellsPart(texts[i].1, STATUS))
  {
    var texts := Parameters(own, config);
    OwnRequestsHaveNoStatus(own, config);
    forall i: nat | i < |texts|
      ensures SpellsPart(texts[i].1, STATUS) <==> SpelledUnder(AsWords(texts), texts[i].0, STATUS)
    {
      OwnKeys(own, config, i);
      FieldSpells(texts, i, "trade_status", "TRADE_SUCCESS");
    }
    AsWordsKeeps(texts, "");
    PartOfSignedText(AsWords(texts), STATUS);
    SpelledSomewhere(texts, STATUS);
  }

  lemma SpelledBehind(url: string, part: string)
    requires '&' !in part
    ensures SpellsPart(url + "&" + part, part)
  {
    SplitConcat(url, part);
    SplitNowhere(part);
    var parts := Split(url + "&" + part);
    assert parts[1..][|parts| - 2] == part;
  }

  /** A real request for which it fails: a payment whose return address carries the status behind an
      ampersand, whatever its other fields are. */
  lemma ReturnAddressSpellsStatus(own: OwnRequest, config: Config, url: string)
    requires own.Payment? && own.returnUrl == url + "&" + STATUS
    ensures !SpelledNowhere(AsWords(Parameters(own, config)), STATUS)
    ensures STATUS in Split(Canonical(AsWords(Parameters(own, config))))
  {
    OwnTextHasStatusIff(own, config);
    StatusIsOnePart();
    SpelledBehind(url, STATUS);
    assert Parameters(own, config)[4].1 == own.returnUrl;
  }

  // ---------------------------------------------------------------- separators

  function Part(entry: (string, string)): string {
    entry.0 + "=" + entry.1
  }

  /** The text of parameters that all count, given in key order. */
  lemma TextInOrder(query: Dict<string>)
    requires IsDict(query) && Increasing(Keys(query))
    requires forall i :: 0 <= i < |query| ==> query[i].0 !in UNSIGNED && query[i].1 !in {"", "0"}
    ensures var parts := Fragments(AsWords(query), Keys(query));
            && Canonical(AsWords(query)) == Join(parts, "&") && |parts| == |query|
            && forall i :: 0 <= i < |query| ==> parts[i] == Part(query[i])
  {
    KeysByIndex(query);
    forall i | 0 <= i < |query|
      ensures Get(AsWords(query), query[i].0) == Some(Words(query[i].1))
    {
      GetAt(query, i);
      AsWordsKeeps(query, query[i].0);
    }
    forall k
      ensures k in Keys(query) <==> SurvivingKey(AsWords(query), k)
    {
      AsWordsKeeps(query, k);
      GetFindsKeys(query, k);
      if k in Keys(query) {
        var i :| 0 <= i < |query| && query[i].0 == k;
      }
    }
    AsWordsKeeps(query, "");
    CanonicalOf(AsWords(query), Keys(query));
  }

  lemma TextOfOne(key: string, text: string)
    requires key !in UNSIGNED && text !in {"", "0"}
    ensures Canonical(AsWords([(key, text)])) == Part((key, text))
  {
    var query := [(key, text)];
    KeysByIndex(query);
    TextInOrder(query);
    assert Fragments(AsWords(query), Keys(query)) == [Part(query[0])];
  }

  function ThreeText(a: string, b: string, c: string): string {
    a + "&" + b + "&" + c
  }

  lemma JoinOfThree(parts: seq<string>, query: Dict<string>)
    requires |parts| == |query| == 3 && forall i :: 0 <= i < 3 ==> parts[i] == Part(query[i])
    ensures Join(parts, "&") == ThreeText(Part(query[0]), Part(query[1]), Part(query[2]))
  {
    assert parts[1..][1..] == parts[2..] && |parts[2..]| == 1;
    assert Join(parts[2..], "&") == parts[2];
    assert Join(parts[1..], "&") == parts[1] + "&" + parts[2];
    assert Join(parts, "&") == parts[0] + "&" + (parts[1] + "&" + parts[2]);
  }

  lemma TextOfThree(query: Dict<string>)
    requires |query| == 3 && IsDict(query) && Increasing(Keys(query))
    requires forall i :: 0 <= i < 3 ==> query[i].0 !in UNSIGNED && query[i].1 !in {"", "0"}
    ensures Canonical(AsWords(query)) == ThreeText(Part(query[0]), Part(query[1]), Part(query[2]))
  {
    TextInOrder(query);
    JoinOfThree(Fragments(AsWords(query), Keys(query)), query);
  }

  lemma Regroup(a: string, b: string, c: string, d: string)
    ensures a + "=" + (b + ("&" + c + "&" + d)) == (a + "=" + b) + "&" + c + "&" + d
  {
  }

  predicate Counted(entry: (string, string)) {
    entry.0 !in UNSIGNED && entry.1 !in {"", "0"}
  }

  /** With separators in a value an entry of its own and a part of another's value are one text. */
  lemma ValueSpellsEntries(first: (string, string), second: (string, string), third: (string, string))
    requires Counted(first) && Counted(second) && Counted(third) && Increasing([first.0, second.0, third.0])
    ensures var longer := [(first.0, first.1 + ("&" + Part(second) + "&" + Part(third)))];
            var query := [first, second, third];
            && IsDict(longer) && IsDict(query)
            && !IsSigned(longer, third.0) && IsSigned(query, third.0)
            && Canonical(AsWords(longer)) == Canonical(AsWords(query))
  {
    var longer := [(first.0, first.1 + ("&" + Part(second) + "&" + Part(third)))];
    var query := [first, second, third];
    SpelledIsDict(longer, query);
    GetAt(query, 2);
    SignedUnlessZero(longer, third.0);
    GetFindsKeys(longer, third.0);
    SignedUnlessZero(query, third.0);
    TextOfOne(first.0, longer[0].1);
    TextOfThree(query);
    Regroup(first.0, first.1, Part(second), Part(third));
  }

  lemma SpelledIsDict(one: Dict<string>, three: Dict<string>)
    requires |one| == 1 && |three| == 3 && one[0].0 == three[0].0
    requires Increasing([three[0].0, three[1].0, three[2].0])
    ensures IsDict(one) && IsDict(three) && Increasing(Keys(three))
    ensures three[2].0 !in Keys(one)
  {
    KeysByIndex(one);
    KeysByIndex(three);
    var keys := [three[0].0, three[1].0, three[2].0];
    assert Keys(three) == keys;
    forall i, j | 0 <= i < j < 3
      ensures keys[i] != keys[j]
    {
      LessIsTotal(keys[i], keys[j]);
    }
  }
}

/** `verify_webhook` of `inc/adapters/payments/epay.py`, and its agreement with what the same adapter
    signs and prints. */
module EpayWebhook {
  import opened Decimals
  import opened Dicts
  import opened EpaySignature
  import opened Money
  import opened Text
  import opened Wrappers

  datatype Config = Config(merchantId: string, merchantKey: string)

  datatype Request = Request(httpMethod: string, query: Dict<string>)

  datatype Event = Event(
    eventId: string, eventType: string, orderReference: string,
    amount: int, currency: string, acknowledgement: string)

  datatype Rejection = NotGet | BadSignature | NotASuccessfulPayment | NoReferences | BadAmount(reason: MoneyError)

  /** `str(value)` of what `get` returned. */
  function StrOrNone(v: Option<string>): string {
    if v.Some? then v.value else "None"
  }

  /** Everything the adapter checks before it reads the amount; on success the two references. */
  function Authenticate(request: Request, config: Config, md5: string -> string): Result<(string, string), Rejection> {
    if Upper(request.httpMethod) != "GET" then Failure(NotGet)
    else
      var values := request.query;
      var supplied := Get(values, "sign");
      if supplied.None? || supplied.value == ""
         || Lower(supplied.value) != SignParameters(AsWords(values), config.merchantKey, md5)
      then Failure(BadSignature)
      else if Get(values, "pid") != Some(config.merchantId) || Get(values, "trade_status") != Some("TRADE_SUCCESS")
      then Failure(NotASuccessfulPayment)
      else
        var tradeNo, orderReference := Stripped(Get(values, "trade_no")), Stripped(Get(values, "out_trade_no"));
        if tradeNo == "" || orderReference == "" then Failure(NoReferences)
        else Success((tradeNo, orderReference))
  }

  function Capture(references: (string, string), money: Result<int, MoneyError>): Result<Event, Rejection> {
    match money
    case Failure(reason) => Failure(BadAmount(reason))
    case Success(amount) =>
      Success(Event(references.0 + ":TRADE_SUCCESS", "capture", references.1, amount, "CNY", "success"))
  }

  function Verify(request: Request, config: Config, md5: string -> string): Result<Event, Rejection> {
    match Authenticate(request, config, md5)
    case Failure(rejection) => Failure(rejection)
    case Success(references) => Capture(references, MoneyToFen(StrOrNone(Get(request.query, "money"))))
  }

  /** The digest prints as hexadecimal in lower case. */
  ghost predicate LowerCaseDigest(md5: string -> string) {
    forall s :: md5(s) != "" && Lower(md5(s)) == md5(s)
  }

  /** A notification of a payment: what the gateway would send about an amount of fen. */
  ghost predicate Notifies(values: Dict<Value>, config: Config, tradeNo: string, orderReference: string, amount: int) {
    && IsDict(values)
    && Get(values, "pid") == Some(Words(config.merchantId))
    && Get(values, "trade_status") == Some(Words("TRADE_SUCCESS"))
    && Get(values, "trade_no") == Some(Words(tradeNo)) && Strip(tradeNo) != ""
    && Get(values, "out_trade_no") == Some(Words(orderReference)) && Strip(orderReference) != ""
    && FenToMoney(amount).Success?
    && Get(values, "money") == Some(Words(FenToMoney(amount).value))
  }

  lemma AuthenticWhen(request: Request, config: Config, md5: string -> string, sign: string, tradeNo: string,
                      orderReference: string)
    requires Upper(request.httpMethod) == "GET"
    requires Get(request.query, "sign") == Some(sign) && sign != ""
    requires Lower(sign) == SignParameters(AsWords(request.query), config.merchantKey, md5)
    requires Get(request.query, "pid") == Some(config.merchantId)
    requires Get(request.query, "trade_status") == Some("TRADE_SUCCESS")
    requires Get(request.query, "trade_no") == Some(tradeNo) && Strip(tradeNo) != ""
    requires Get(request.query, "out_trade_no") == Some(orderReference) && Strip(orderReference) != ""
    ensures Authenticate(request, config, md5) == Success((Strip(tradeNo), Strip(orderReference)))
  {
  }

  lemma SignedKeeps(values: Dict<Value>, merchantKey: string, md5: string -> string, key: string, text: string)
    requires IsDict(values) && key !in UNSIGNED && Get(values, key) == Some(Words(text))
    ensures Get(SignedParameters(values, merchantKey, md5), key) == Some(text)
  {
    SignedVerifies(values, merchantKey, md5);
  }

  lemma SignedHolds(values: Dict<Value>, config: Config, md5: string -> string,
                    tradeNo: string, orderReference: string, amount: int)
    requires Notifies(values, config, tradeNo, orderReference, amount)
    ensures var signed := SignedParameters(values, config.merchantKey, md5);
            && Get(signed, "sign") == Some(SignParameters(AsWords(signed), config.merchantKey, md5))
            && Get(signed, "pid") == Some(config.merchantId)
            && Get(signed, "trade_status") == Some("TRADE_SUCCESS")
            && Get(signed, "trade_no") == Some(tradeNo)
            && Get(signed, "out_trade_no") == Some(orderReference)
            && Get(signed, "money") == Some(FenToMoney(amount).value)
  {
    SignedVerifies(values, config.merchantKey, md5);
    SignedKeeps(values, config.merchantKey, md5, "pid", config.merchantId);
    SignedKeeps(values, config.merchantKey, md5, "trade_status", "TRADE_SUCCESS");
    SignedKeeps(values, config.merchantKey, md5, "trade_no", tradeNo);
    SignedKeeps(values, config.merchantKey, md5, "out_trade_no", orderReference);
    SignedKeeps(values, config.merchantKey, md5, "money", FenToMoney(amount).value);
  }

  lemma SignedNotificationIsAuthentic(values: Dict<Value>, config: Config, md5: string -> string,
                                      tradeNo: string, orderReference: string, amount: int)
    requires LowerCaseDigest(md5)
    requires Notifies(values, config, tradeNo, orderReference, amount)
    ensures var signed := SignedParameters(values, config.merchantKey, md5);
            && Authenticate(Request("GET", signed), config, md5) == Success((Strip(tradeNo), Strip(orderReference)))
            && Get(signed, "money") == Some(FenToMoney(amount).value)
  {
    var signed := SignedParameters(values, config.merchantKey, md5);
    var sign := SignParameters(AsWords(signed), config.merchantKey, md5);
    SignedHolds(values, config, md5, tradeNo, orderReference, amount);
    assert Lower(sign) == sign && sign != "";
    assert Upper("GET") == "GET";
    AuthenticWhen(Request("GET", signed), config, md5, sign, tradeNo, orderReference);
  }

  /** Signing and verifying with the same key agree, whatever else the notification carries: it is
      accepted exactly below 10^28 fen, and then yields the amount and the references it was given. */
  lemma SignedNotificationIsAccepted(values: Dict<Value>, config: Config, md5: string -> string,
                                     tradeNo: string, orderReference: string, amount: int)
    requires LowerCaseDigest(md5)
    requires Notifies(values, config, tradeNo, orderReference, amount)
    ensures var verdict := Verify(Request("GET", SignedParameters(values, config.merchantKey, md5)), config, md5);
            && (verdict.Success? <==> amount < LIMIT)
            && (verdict.Success? ==>
                verdict.value == Event(Strip(tradeNo) + ":TRADE_SUCCESS", "capture", Strip(orderReference),
                                       amount, "CNY", "success"))
            && (verdict.Failure? ==> verdict.error == BadAmount(Invalid))
  {
    var signed := SignedParameters(values, config.merchantKey, md5);
    SignedNotificationIsAuthentic(values, config, md5, tradeNo, orderReference, amount);
    EpayRoundTrip(amount);
  }

  // ---------------------------------------------------------------- what acceptance guarantees

  lemma ZeroIsNoAmount()
    ensures MoneyToFen("").Failure? && MoneyToFen("0").Failure?
  {
    assert ParseMantissa("").None?;
    var zero := "0";
    AbsentHasNoIndex(zero, '.');
    AbsentHasNoIndex(zero, 'e');
    assert zero[..1] == zero && zero + "" == zero;
    assert ParseDecimal("0") == Some(Decimal(0, 0));
    EpayFenCases(Decimal(0, 0));
    SignIsKept(Decimal(0, 0), -2);
  }

  /** The entry is among those the signature covers. */
  predicate IsSigned(query: Dict<string>, key: string) {
    SurvivingKey(AsWords(query), key)
  }

  /** The event carries a reference as it was sent, stripped; the signature covers that entry unless it
      is the text "0". */
  predicate CarriesReference(query: Dict<string>, key: string, carried: string) {
    && Get(query, key).Some? && carried == Strip(Get(query, key).value)
    && (IsSigned(query, key) <==> Get(query, key) != Some("0"))
  }

  /** The event is backed by a matching signature over the success status and the amount it reports, and
      over its references and the merchant as far as a signature covers them. */
  ghost predicate IsSignedEvent(event: Event, request: Request, config: Config, md5: string -> string) {
    var signed := AsWords(request.query);
    && Upper(request.httpMethod) == "GET"
    && event.eventType == "capture" && event.currency == "CNY" && event.acknowledgement == "success"
    && (exists s :: Get(request.query, "sign") == Some(s)
                    && Lower(s) == md5(Canonical(signed) + config.merchantKey))
    && Survives(signed, "trade_status", Words("TRADE_SUCCESS"))
    && (exists money :: Survives(signed, "money", Words(money)) && MoneyToFen(money) == Success(event.amount))
    && Get(request.query, "pid") == Some(config.merchantId)
    && (IsSigned(request.query, "pid") <==> config.merchantId !in {"", "0"})
    && CarriesReference(request.query, "out_trade_no", event.orderReference)
    && (exists tradeNo :: CarriesReference(request.query, "trade_no", tradeNo)
                          && event.eventId == tradeNo + ":TRADE_SUCCESS")
    && 0 < event.amount < LIMIT
  }

  lemma SignedUnlessZero(query: Dict<string>, key: string)
    requires key !in UNSIGNED
    ensures IsSigned(query, key) <==> Get(query, key).Some? && Get(query, key).value !in {"", "0"}
  {
    AsWordsKeeps(query, key);
  }

  lemma ReferenceIsCarried(query: Dict<string>, key: string)
    requires key !in UNSIGNED && Stripped(Get(query, key)) != ""
    ensures CarriesReference(query, key, Stripped(Get(query, key)))
  {
    SignedUnlessZero(query, key);
  }

  /** An entry "0" is not signed: with it or without it the signed text is the same. */
  lemma ZeroEntryIsNotSigned(query: Dict<string>, key: string)
    requires IsDict(query) && key !in Keys(query)
    ensures IsDict(query + [(key, "0")])
    ensures Canonical(AsWords(query + [(key, "0")])) == Canonical(AsWords(query))
  {
    var longer := query + [(key, "0")];
    AppendIsDict(query, key, "0");
    AsWordsKeeps(longer, key);
    AsWordsKeeps(query, key);
    GetFindsKeys(query, key);
    forall k
      ensures SurvivingKey(AsWords(longer), k) <==> SurvivingKey(AsWords(query), k)
      ensures SurvivingKey(AsWords(query), k) ==> Get(AsWords(longer), k) == Get(AsWords(query), k)
    {
      AsWordsKeeps(longer, k);
      AsWordsKeeps(query, k);
    }
    SamePrintsSameText(AsWords(longer), AsWords(query));
  }

  /** The request is one that the adapter accepts, and this is the event it makes of it. */
  predicate Accepts(request: Request, config: Config, md5: string -> string, event: Event) {
    var query := request.query;
    && Upper(request.httpMethod) == "GET"
    && Get(query, "sign").Some? && Get(query, "sign").value != ""
    && Lower(Get(query, "sign").value) == md5(Canonical(AsWords(query)) + config.merchantKey)
    && Get(query, "pid") == Some(config.merchantId)
    && Get(query, "trade_status") == Some("TRADE_SUCCESS")
    && Stripped(Get(query, "trade_no")) != "" && Stripped(Get(query, "out_trade_no")) != ""
    && event.eventId == Stripped(Get(query, "trade_no")) + ":TRADE_SUCCESS"
    && event.orderReference == Stripped(Get(query, "out_trade_no"))
    && MoneyToFen(StrOrNone(Get(query, "money"))) == Success(event.amount)
    && event.eventType == "capture" && event.currency == "CNY" && event.acknowledgement == "success"
  }

  /** A request is accepted exactly when all of this holds, and then as this event. */
  lemma AcceptedIff(request: Request, config: Config, md5: string -> string, event: Event)
    ensures Verify(request, config, md5) == Success(event) <==> Accepts(request, config, md5, event)
  {
  }

  lemma StatusIsSigned(query: Dict<string>)
    ensures Get(query, "trade_status") == Some("TRADE_SUCCESS") ==>
              Survives(AsWords(query), "trade_status", Words("TRADE_SUCCESS"))
  {
    AsWordsKeeps(query, "trade_status");
  }

  lemma MoneyIsSigned(query: Dict<string>, amount: int)
    ensures MoneyToFen(StrOrNone(Get(query, "money"))) == Success(amount) ==>
              && 0 < amount < LIMIT
              && Survives(AsWords(query), "money", Words(StrOrNone(Get(query, "money"))))
  {
    AsWordsKeeps(query, "money");
    AcceptedAmounts(StrOrNone(Get(query, "money")));
  }

  lemma AcceptedIsSigned(request: Request, config: Config, md5: string -> string, event: Event)
    ensures Accepts(request, config, md5, event) ==> IsSignedEvent(event, request, config, md5)
  {
    if Accepts(request, config, md5, event) {
      StatusIsSigned(request.query);
      MoneyIsSigned(request.query, event.amount);
      SignedUnlessZero(request.query, "pid");
      ReferenceIsCarried(request.query, "out_trade_no");
      ReferenceIsCarried(request.query, "trade_no");
    }
  }

  /** An accepted event is backed by the signature: the success status and the amount it reports are
      among the signed entries, the merchant is the configured one, and the amount is positive. */
  lemma AcceptedEventIsSigned(request: Request, config: Config, md5: string -> string)
    ensures Verify(request, config, md5).Success? ==>
              IsSignedEvent(Verify(request, config, md5).value, request, config, md5)
  {
    if Verify(request, config, md5).Success? {
      AcceptedIff(request, config, md5, Verify(request, config, md5).value);
      AcceptedIsSigned(request, config, md5, Verify(request, config, md5).value);
    }
  }

  /** An amount that is read is within range, and its text is neither empty nor "0" nor absent. */
  lemma AcceptedAmounts(money: string)
    ensures MoneyToFen(money).Success? ==>
              money !in {"", "0", "None"} && 0 < MoneyToFen(money).value < LIMIT
  {
    ZeroIsNoAmount();
    NoneIsNoAmount();
    if ParseDecimal(money).Some? {
      EpayFenCases(ParseDecimal(money).value);
    }
  }

  lemma NoneIsNoAmount()
    ensures MoneyToFen("None").Failure?
  {
    NoneInLowerCase();
    FirstIndexIsUnique("none", 'e', 3);
    assert "none"[..3] == "non";
    NonIsNoMantissa();
  }

  lemma NoneInLowerCase()
    ensures Lower(WithoutUnderscores(Strip("None"))) == "none"
    ensures SplitSign(WithoutUnderscores(Strip("None"))).1 == WithoutUnderscores(Strip("None"))
  {
    StripIsTrimmed("None");
    assert WithoutUnderscores("None") == "None";
  }

  lemma NonIsNoMantissa()
    ensures ParseMantissa("non").None?
  {
    var non := "non";
    AbsentHasNoIndex(non, '.');
    assert non[..3] == non && non + "" == non && !IsDigit(non[0]);
  }
}

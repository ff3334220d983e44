/** `POST /api/check`: reads `initData` from the JSON body, verifies it with
    the bot token, and asks the Bot API whether the user belongs to the
    channel. Every exit of the handler is one `Outcome`. */
module CheckRoute {
  import opened Base
  import opened JsonValue
  import FormUrlEncoded
  import InitData
  import Membership

  /** `TELEGRAM_BOT_TOKEN` and `TELEGRAM_CHANNEL_ID`. */
  datatype Config = Config(botToken: Option<Text>, channelId: Option<Text>)

  /** The responses of the handler. */
  datatype Outcome =
    | InvalidInput        // 400 { error: 'Invalid initData' }
    | ConfigurationError  // 500 { error: 'Server configuration error' }
    | InvalidInitData     // 400 { error: 'Invalid Telegram initData' }
    | Answer(member: bool) // 200 { member }
    | InternalError       // 500 { error: 'Internal server error' }

  function Status(o: Outcome): int {
    match o
    case InvalidInput => 400
    case ConfigurationError => 500
    case InvalidInitData => 400
    case Answer(_) => 200
    case InternalError => 500
  }

  const InitDataKey: Text := Ascii("initData")
  const IdKey: Text := Ascii("id")

  /** `initData` of the body when it is a non-empty string; anything else
      (missing, empty, not a string) fails the test on line 10. */
  function InitDataField(body: Json): (r: Option<Text>)
    ensures r.Some? <==> Property(body, InitDataKey).Some?
                         && Property(body, InitDataKey).value.JString?
                         && Property(body, InitDataKey).value.s != []
  {
    match Property(body, InitDataKey)
    case Some(JString(s)) => if s != [] then Some(s) else None
    case _ => None
  }

  /** The handler. `body` is `None` when `request.json()` throws; destructuring
      a `null` body throws too. Both land in the `catch` of line 50. */
  function Handle(body: Option<Json>, config: Config, mac: InitData.Mac,
                  parseJson: InitData.JsonParser, oracle: Membership.Oracle): (r: Outcome)
    ensures r.Answer? ==> Configured(config.botToken) && Configured(config.channelId)
    ensures r.Answer? ==> body.Some? && InitDataField(body.value).Some?
  {
    if body.None? || body.value.JNull? then InternalError
    else match InitDataField(body.value)
      case None => InvalidInput
      case Some(initData) =>
        if !Configured(config.botToken) then ConfigurationError
        else Verified(InitData.Validate(initData, config.botToken.value, mac, parseJson), config, oracle)
  }

  /** Lines 28-49, after the verifier has run with the configured token. */
  function Verified(d: Option<InitData.InitData>, config: Config, oracle: Membership.Oracle): (r: Outcome)
    requires Configured(config.botToken)
    ensures r.InvalidInitData? || r.ConfigurationError? || r.Answer?
    ensures r.InvalidInitData? <==> d.None? || d.value.user.None? || !Truthy(d.value.user.value)
    ensures r.Answer? <==> d.Some? && d.value.user.Some? && Truthy(d.value.user.value) && Configured(config.channelId)
  {
    if d.None? || d.value.user.None? || !Truthy(d.value.user.value) then InvalidInitData
    else if !Configured(config.channelId) then ConfigurationError
    else
      var q := Membership.Query(config.botToken.value, config.channelId.value, Property(d.value.user.value, IdKey));
      Answer(Membership.GetChatMember(oracle, q))
  }

  // ---------------------------------------------------------------------
  // The order of the checks

  /** A body that is not JSON, or is `null`, is an internal error. */
  lemma UnreadableBodyIsInternalError(body: Option<Json>, config: Config, mac: InitData.Mac,
                                      parseJson: InitData.JsonParser, oracle: Membership.Oracle)
    requires body.None? || body.value.JNull?
    ensures Handle(body, config, mac, parseJson, oracle) == InternalError
    ensures Status(Handle(body, config, mac, parseJson, oracle)) == 500
  {
  }

  /** A missing, empty or non-string `initData` is refused with 400 before any
      configuration is looked at: the answer is the same under every config. */
  lemma BadInputBeforeConfiguration(body: Json, config: Config, mac: InitData.Mac,
                                    parseJson: InitData.JsonParser, oracle: Membership.Oracle)
    requires body != JNull
    requires InitDataField(body).None?
    ensures Handle(Some(body), config, mac, parseJson, oracle) == InvalidInput
    ensures Status(InvalidInput) == 400
  {
  }

  /** Without a bot token the answer is 500 whatever the verifier, the JSON
      parser and the lookup would do: none of them is reached. */
  lemma TokenBeforeVerification(body: Json, config: Config,
                                mac1: InitData.Mac, parseJson1: InitData.JsonParser, oracle1: Membership.Oracle,
                                mac2: InitData.Mac, parseJson2: InitData.JsonParser, oracle2: Membership.Oracle)
    requires body != JNull && InitDataField(body).Some?
    requires !Configured(config.botToken)
    ensures Handle(Some(body), config, mac1, parseJson1, oracle1) == ConfigurationError
    ensures Handle(Some(body), config, mac1, parseJson1, oracle1)
         == Handle(Some(body), config, mac2, parseJson2, oracle2)
  {
  }

  /** initData that fails verification, or verifies without a truthy `user`,
      is refused with 400 even when no channel is configured, and the lookup
      is never consulted. */
  lemma VerificationBeforeChannel(body: Json, token: Text, channel1: Option<Text>, channel2: Option<Text>,
                                  mac: InitData.Mac, parseJson: InitData.JsonParser,
                                  oracle1: Membership.Oracle, oracle2: Membership.Oracle)
    requires body != JNull && InitDataField(body).Some? && token != []
    ensures
      var d := InitData.Validate(InitDataField(body).value, token, mac, parseJson);
      (d.None? || d.value.user.None? || !Truthy(d.value.user.value)) ==>
        && Handle(Some(body), Config(Some(token), channel1), mac, parseJson, oracle1) == InvalidInitData
        && Handle(Some(body), Config(Some(token), channel2), mac, parseJson, oracle2) == InvalidInitData
  {
    var d := InitData.Validate(InitDataField(body).value, token, mac, parseJson);
    assert Handle(Some(body), Config(Some(token), channel1), mac, parseJson, oracle1)
        == Verified(d, Config(Some(token), channel1), oracle1);
    assert Handle(Some(body), Config(Some(token), channel2), mac, parseJson, oracle2)
        == Verified(d, Config(Some(token), channel2), oracle2);
  }

  /** With a verified user but no channel id, the answer is 500. */
  lemma ChannelAfterVerification(body: Json, token: Text, channel: Option<Text>,
                                 mac: InitData.Mac, parseJson: InitData.JsonParser, oracle: Membership.Oracle)
    requires body != JNull && InitDataField(body).Some? && token != []
    requires !Configured(channel)
    ensures
      var d := InitData.Validate(InitDataField(body).value, token, mac, parseJson);
      d.Some? && d.value.user.Some? && Truthy(d.value.user.value) ==>
        Handle(Some(body), Config(Some(token), channel), mac, parseJson, oracle) == ConfigurationError
  {
    var d := InitData.Validate(InitDataField(body).value, token, mac, parseJson);
    assert Handle(Some(body), Config(Some(token), channel), mac, parseJson, oracle)
        == Verified(d, Config(Some(token), channel), oracle);
  }

  /** When every check passes, the lookup's answer for `user.id` is reported
      as it is. */
  lemma AnswerIsLookup(body: Json, token: Text, channel: Text,
                       mac: InitData.Mac, parseJson: InitData.JsonParser, oracle: Membership.Oracle)
    requires body != JNull && InitDataField(body).Some? && token != [] && channel != []
    ensures
      var d := InitData.Validate(InitDataField(body).value, token, mac, parseJson);
      d.Some? && d.value.user.Some? && Truthy(d.value.user.value) ==>
        Handle(Some(body), Config(Some(token), Some(channel)), mac, parseJson, oracle)
          == Answer(Membership.GetChatMember(oracle, Membership.Query(token, channel, Property(d.value.user.value, IdKey))))
  {
    var d := InitData.Validate(InitDataField(body).value, token, mac, parseJson);
    assert Handle(Some(body), Config(Some(token), Some(channel)), mac, parseJson, oracle)
        == Verified(d, Config(Some(token), Some(channel)), oracle);
  }

  /** The facts behind a `{member: true}` answer. */
  ghost predicate Confirmed(body: Option<Json>, config: Config, mac: InitData.Mac,
                            parseJson: InitData.JsonParser, oracle: Membership.Oracle)
  {
    && body.Some? && body.value != JNull && InitDataField(body.value).Some?
    && Configured(config.botToken) && Configured(config.channelId)
    && var initData := InitDataField(body.value).value;
       var d := InitData.Validate(initData, config.botToken.value, mac, parseJson);
       && d.Some?
       && d.value.hash == InitData.ExpectedHash(mac, config.botToken.value,
                                                InitData.CheckString(FormUrlEncoded.SearchParams(initData)))
       && d.value.user.Some? && Truthy(d.value.user.value)
       && var reply := oracle(Membership.Query(config.botToken.value, config.channelId.value,
                                               Property(d.value.user.value, IdKey)));
          reply.Reply? && reply.ok && reply.status.Some? && reply.status.value in Membership.MemberStatuses
  }

  /** The handler never fails open: `{member: true}` means the body carried a
      non-empty `initData` string whose signature verified under the configured
      token, the payload had a truthy `user`, a channel was configured, and the
      Bot API answered `ok` with an accepted status for that user's `id`. */
  lemma NeverFailsOpen(body: Option<Json>, config: Config, mac: InitData.Mac,
                       parseJson: InitData.JsonParser, oracle: Membership.Oracle)
    ensures Handle(body, config, mac, parseJson, oracle) == Answer(true) ==>
            Confirmed(body, config, mac, parseJson, oracle)
  {
    if Handle(body, config, mac, parseJson, oracle) == Answer(true) {
      InitData.AcceptedIsSigned(InitDataField(body.value).value, config.botToken.value, mac, parseJson);
    }
  }

  /** Only an answer is a 200; every refusal carries an error status. */
  lemma OnlyAnswersSucceed(o: Outcome)
    ensures Status(o) == 200 <==> o.Answer?
    ensures !o.Answer? ==> Status(o) == 400 || Status(o) == 500
    ensures Status(o) == 400 <==> o.InvalidInput? || o.InvalidInitData?
    ensures Status(o) == 500 <==> o.ConfigurationError? || o.InternalError?
  {
  }
}

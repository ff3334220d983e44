/** The whole path of a visit: the check endpoint's answer travels as
    `/go?member=<answer>` to the redirect page, which picks a destination. */
module AccessFlow {
  import opened Base
  import opened JsonValue
  import FormUrlEncoded
  import InitData
  import Membership
  import CheckRoute
  import GoPage

  /** The destination the redirect page picks for an answer of the check
      endpoint. */
  function Destination(answer: bool, config: GoPage.RedirectConfig): GoPage.Page {
    var member := GoPage.SearchParam(FormUrlEncoded.Parse(GoPage.ClientQuery(answer)), GoPage.MemberName);
    GoPage.Go(member, config)
  }

  /** The answer decides the destination one to one. */
  lemma DestinationFollowsAnswer(answer: bool, config: GoPage.RedirectConfig)
    requires Configured(config.memberUrl) && Configured(config.nonMemberUrl)
    ensures Destination(answer, config).Redirect?
    ensures Destination(answer, config).target
         == if answer then config.memberUrl.value else config.nonMemberUrl.value
  {
    GoPage.ClientQueryRoundTrip(answer);
    GoPage.TargetSelection(
      GoPage.SearchParam(FormUrlEncoded.Parse(GoPage.ClientQuery(answer)), GoPage.MemberName), config);
  }

  /** Never failing open along the start page's path: when the two
      destinations differ, a visitor whom the start page sends to `/go` after
      an endpoint answer, and who lands on the member destination, was
      confirmed by the Bot API after a verified signature. */
  lemma MemberDestinationNeedsConfirmation(body: Option<Json>, config: CheckRoute.Config,
                                           mac: InitData.Mac, parseJson: InitData.JsonParser,
                                           oracle: Membership.Oracle, answer: bool,
                                           redirects: GoPage.RedirectConfig)
    requires Configured(redirects.memberUrl) && Configured(redirects.nonMemberUrl)
    requires redirects.memberUrl != redirects.nonMemberUrl
    ensures
      && CheckRoute.Handle(body, config, mac, parseJson, oracle) == CheckRoute.Answer(answer)
      && Destination(answer, redirects).target == redirects.memberUrl.value
      ==> answer && CheckRoute.Confirmed(body, config, mac, parseJson, oracle)
  {
    DestinationFollowsAnswer(answer, redirects);
    CheckRoute.NeverFailsOpen(body, config, mac, parseJson, oracle);
  }

  /** `/go` trusts its query: the text `member=true`, typed by hand rather
      than built from an endpoint answer, reaches the member destination with
      no signature, no lookup and no handler involved. */
  lemma TypedQueryReachesMember(config: GoPage.RedirectConfig)
    requires Configured(config.memberUrl) && Configured(config.nonMemberUrl)
    ensures GoPage.ClientQuery(true) == [0x6D, 0x65, 0x6D, 0x62, 0x65, 0x72, FormUrlEncoded.Eq, 0x74, 0x72, 0x75, 0x65]
    ensures GoPage.Go(GoPage.SearchParam(FormUrlEncoded.Parse(GoPage.ClientQuery(true)), GoPage.MemberName), config)
         == GoPage.Redirect(config.memberUrl.value, config.enableFallback == Some(GoPage.True))
  {
    TypedQueryBytes();
    var member := GoPage.SearchParam(FormUrlEncoded.Parse(GoPage.ClientQuery(true)), GoPage.MemberName);
    GoPage.ClientQueryRoundTrip(true);
    GoPage.TargetSelection(member, config);
  }

  lemma TypedQueryBytes()
    ensures GoPage.ClientQuery(true) == [0x6D, 0x65, 0x6D, 0x62, 0x65, 0x72, FormUrlEncoded.Eq, 0x74, 0x72, 0x75, 0x65]
  {
    assert GoPage.MemberName == [0x6D, 0x65, 0x6D, 0x62, 0x65, 0x72];
    assert GoPage.True == [0x74, 0x72, 0x75, 0x65];
  }
}

/** The `/go` page: turns the `member` query value into one of two configured
    destinations, with an optional fallback page and a manual link. */
module GoPage {
  import opened Base
  import opened FormUrlEncoded

  /** A Next.js search parameter: absent, one value, or the values of a name
      that occurs more than once. */
  datatype ParamValue = Absent | Single(value: Text) | Multiple(values: seq<Text>)

  /** `MEMBER_REDIRECT_URL`, `NON_MEMBER_REDIRECT_URL`, `ENABLE_FALLBACK_REDIRECT`. */
  datatype RedirectConfig = RedirectConfig(memberUrl: Option<Text>, nonMemberUrl: Option<Text>,
                                           enableFallback: Option<Text>)

  /** What the page decides: a configuration error, or the destination and
      whether the fallback page may be used. */
  datatype Page = ConfigurationError | Redirect(target: Text, fallbackEnabled: bool)

  /** What is shown when the server-side redirect fails. */
  datatype FailureView = FallbackRedirect(url: Text) | ManualLink(href: Text)

  const True: Text := Ascii("true")
  const False: Text := Ascii("false")
  const MemberName: Text := Ascii("member")
  const ToName: Text := Ascii("to")
  const FallbackPath: Text := Ascii("/fallback-redirect")

  /** The values of the entries carrying `name`, in order. */
  function ValuesOf(entries: seq<Entry>, name: Text): (r: seq<Text>)
    ensures |r| == |OnlyName(entries, name)|
    ensures forall i :: 0 <= i < |r| ==> r[i] == OnlyName(entries, name)[i].value
  {
    var only := OnlyName(entries, name);
    seq(|only|, i requires 0 <= i < |only| => only[i].value)
  }

  /** `searchParams[name]` built from a parsed query string: a name that
      occurs once gives its value, one that occurs more often gives all its
      values in order, and the first of them is what `get` would return. */
  function SearchParam(entries: seq<Entry>, name: Text): (r: ParamValue)
    ensures r.Absent? <==> OnlyName(entries, name) == []
    ensures r.Single? <==> |OnlyName(entries, name)| == 1
    ensures r.Single? ==> r.value == OnlyName(entries, name)[0].value
    ensures r.Multiple? ==> |r.values| == |OnlyName(entries, name)|
                            && forall i :: 0 <= i < |r.values| ==> r.values[i] == OnlyName(entries, name)[i].value
    ensures r.Absent? <==> Get(entries, name).None?
    ensures r.Single? ==> Get(entries, name) == Some(r.value)
    ensures r.Multiple? ==> Get(entries, name) == Some(r.values[0])
  {
    var vs := ValuesOf(entries, name);
    GetOnlyName(entries, name);
    if |vs| == 0 then Absent else if |vs| == 1 then Single(vs[0]) else Multiple(vs)
  }

  /** `memberParam === 'true'`. */
  predicate IsMember(member: ParamValue) {
    member.Single? && member.value == True
  }

  /** Lines 7-26: both URLs must be set and non-empty; the member URL is chosen
      for members, the other one otherwise. */
  function Go(member: ParamValue, config: RedirectConfig): (p: Page)
    ensures p.ConfigurationError? <==> !Configured(config.memberUrl) || !Configured(config.nonMemberUrl)
    ensures p.Redirect? ==> p.target != []
  {
    if !Configured(config.memberUrl) || !Configured(config.nonMemberUrl) then ConfigurationError
    else
      var target := if IsMember(member) then config.memberUrl.value else config.nonMemberUrl.value;
      Redirect(target, config.enableFallback == Some(True))
  }

  /** `/fallback-redirect?to=${encodeURIComponent(targetUrl)}`. */
  function FallbackUrl(target: Text): Text {
    FallbackPath + [Question] + ToName + [Eq] + EncodeUriComponent(target)
  }

  /** The catch branch of lines 31-56: the fallback page when enabled,
      otherwise a link to the target itself. */
  function OnRedirectFailure(target: Text, fallbackEnabled: bool): (v: FailureView)
    ensures v.ManualLink? ==> !fallbackEnabled
  {
    if fallbackEnabled then FallbackRedirect(FallbackUrl(target)) else ManualLink(target)
  }

  /** The query of a relative URL: after the first `?`, up to the first `#`. */
  function QueryOf(url: Text): Text {
    match IndexOf(url, Question)
    case None => []
    case Some(i) =>
      var rest := url[i + 1..];
      match IndexOf(rest, NumberSign)
      case None => rest
      case Some(j) => rest[..j]
  }

  /** The query the start page navigates with: `/go?member=${data.member}`. */
  function ClientQuery(member: bool): Text {
    MemberName + [Eq] + (if member then True else False)
  }

  // ---------------------------------------------------------------------
  // Properties

  /** Only the exact single value `true` means member: no case folding, no
      `1`, no arrays, no missing value. */
  lemma MemberOnlyForExactTrue(member: ParamValue)
    ensures IsMember(member) <==> member == Single(True)
    ensures !IsMember(Absent)
    ensures !IsMember(Single(Ascii("TRUE"))) && !IsMember(Single(Ascii("1")))
    ensures !IsMember(Multiple([True, True]))
  {
    assert Ascii("TRUE")[0] != True[0];
    assert Ascii("1")[0] != True[0];
  }

  /** Exactly one of the two configured URLs is chosen, and which one depends
      only on the member test; the fallback flag is the exact string `true`. */
  lemma TargetSelection(member: ParamValue, config: RedirectConfig)
    requires Configured(config.memberUrl) && Configured(config.nonMemberUrl)
    ensures Go(member, config).Redirect?
    ensures IsMember(member) ==> Go(member, config).target == config.memberUrl.value
    ensures !IsMember(member) ==> Go(member, config).target == config.nonMemberUrl.value
    ensures Go(member, config).fallbackEnabled <==> config.enableFallback == Some(True)
  {
  }

  /** When the redirect fails, what is shown still leads to the URL `Go`
      chose: the manual link points at it when the fallback is off, and the
      fallback page reads it back as its `to` parameter when it is on. */
  lemma FailureKeepsTarget(member: ParamValue, config: RedirectConfig)
    ensures
      var p := Go(member, config);
      p.Redirect? ==>
        var chosen := if IsMember(member) then config.memberUrl.value else config.nonMemberUrl.value;
        var v := OnRedirectFailure(p.target, p.fallbackEnabled);
        && (v.ManualLink? <==> config.enableFallback != Some(True))
        && (v.ManualLink? ==> v.href == chosen)
        && (v.FallbackRedirect? ==> SearchParam(Parse(QueryOf(v.url)), ToName) == Single(chosen))
  {
    var p := Go(member, config);
    if p.Redirect? {
      FallbackCarriesTarget(p.target);
    }
  }

  lemma FallbackPathBytes()
    ensures Question !in FallbackPath
    ensures ToName == [0x74, 0x6F]
  {
    assert FallbackPath == [0x2F, 0x66, 0x61, 0x6C, 0x6C, 0x62, 0x61, 0x63, 0x6B,
                            0x2D, 0x72, 0x65, 0x64, 0x69, 0x72, 0x65, 0x63, 0x74];
  }

  lemma FallbackQuery(target: Text)
    ensures QueryOf(FallbackUrl(target)) == ToName + [Eq] + EncodeUriComponent(target)
  {
    var enc := EncodeUriComponent(target);
    var rest := ToName + [Eq] + enc;
    FallbackPathBytes();
    assert FallbackUrl(target) == FallbackPath + [Question] + rest;
    IndexOfAfterPiece(FallbackPath, Question, rest);
    assert (FallbackPath + [Question] + rest)[|FallbackPath| + 1..] == rest;
    EncodedHasNo(target, NumberSign);
    assert NumberSign !in rest;
  }

  /** The fallback page reads back exactly the chosen target as its `to`
      parameter, whatever bytes the target holds. */
  lemma FallbackCarriesTarget(target: Text)
    ensures SearchParam(Parse(QueryOf(FallbackUrl(target))), ToName) == Single(target)
  {
    FallbackQuery(target);
    FallbackPathBytes();
    var e := Entry(ToName, target);
    EncodeUnreservedIdentity(ToName);
    assert EncodeQuery([e]) == ToName + [Eq] + EncodeUriComponent(target);
    ParseEncodeQuery([e]);
    OnlyNameSingle(e, ToName);
  }

  /** The start page's `/go?member=true|false` reaches the page with the same
      answer. */
  lemma ClientQueryRoundTrip(member: bool)
    ensures IsMember(SearchParam(Parse(ClientQuery(member)), MemberName)) == member
  {
    var value := if member then True else False;
    var e := Entry(MemberName, value);
    EncodeUnreservedIdentity(MemberName);
    EncodeUnreservedIdentity(value);
    assert EncodeQuery([e]) == ClientQuery(member);
    ParseEncodeQuery([e]);
    OnlyNameSingle(e, MemberName);
    assert False[0] != True[0];
  }

  lemma {:induction false} EncodeUnreservedIdentity(s: Text)
    requires forall i :: 0 <= i < |s| ==> IsUnreserved(s[i])
    ensures EncodeUriComponent(s) == s
  {
    if s != [] {
      EncodeUnreservedIdentity(s[1..]);
      assert s == [s[0]] + s[1..];
    }
  }
}

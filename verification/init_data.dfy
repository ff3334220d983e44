/** `validateInitData`: checks the signature Telegram puts on a Mini App's
    `initData` query string and extracts the user, the chat instance and the
    hash. HMAC-SHA256 and `JSON.parse` are parameters. */
module InitData {
  import opened Base
  import opened JsonValue
  import opened FormUrlEncoded
  import opened Canonical
  import Hex

  /** An HMAC-SHA256 output: 32 bytes. */
  type Digest = d: seq<byte> | |d| == 32
    witness [0, 0, 0, 0, 0, 0, 0, 0, 0, 0, 0, 0, 0, 0, 0, 0,
             0, 0, 0, 0, 0, 0, 0, 0, 0, 0, 0, 0, 0, 0, 0, 0]

  /** HMAC-SHA256 of RFC 2104, `mac(key, message)`; its internals are not modelled. */
  type Mac = (Text, Text) -> Digest

  /** `JSON.parse`: `None` when it throws. */
  type JsonParser = Text -> Option<Json>

  const WebAppData: Text := Ascii("WebAppData")
  const HashName: Text := Ascii("hash")
  const UserName: Text := Ascii("user")
  const ChatInstanceName: Text := Ascii("chat_instance")

  /** The verified payload. `user` is whatever `JSON.parse` returned: its
      fields are not checked. */
  datatype InitData = InitData(user: Option<Json>, chatInstance: Option<Text>, hash: Text)

  /** The key derived from the bot token: the token is the MESSAGE and the
      constant `WebAppData` is the key. */
  function SecretKey(mac: Mac, botToken: Text): Digest {
    mac(WebAppData, botToken)
  }

  /** The signed entries: every `hash` entry removed, the rest sorted by name. */
  function SignedEntries(params: seq<Entry>): (r: seq<Entry>)
    ensures forall i :: 0 <= i < |r| ==> r[i].name != HashName
    ensures forall e :: multiset(r)[e] == if e.name == HashName then 0 else multiset(params)[e]
    ensures SortedByName(r)
    ensures forall m :: m != HashName ==> OnlyName(r, m) == OnlyName(params, m)
  {
    var rest := Delete(params, HashName);
    assert forall m :: m != HashName ==> OnlyName(SortByName(rest), m) == OnlyName(params, m) by {
      forall m | m != HashName
        ensures OnlyName(SortByName(rest), m) == OnlyName(params, m)
      {
        SortStable(rest, m);
      }
    }
    SortByName(rest)
  }

  /** The data-check string the signature covers. */
  function CheckString(params: seq<Entry>): Text {
    DataString(SignedEntries(params))
  }

  /** The hash a genuine `initData` carries: lowercase hex of the HMAC of the
      data-check string under the derived key. */
  function ExpectedHash(mac: Mac, botToken: Text, dataString: Text): (h: Text)
    ensures |h| == 64
    ensures forall i :: 0 <= i < |h| ==> Hex.IsLowerHexDigit(h[i])
  {
    Hex.Lower(mac(SecretKey(mac, botToken), dataString))
  }

  /** `params.get(name) || undefined`. */
  function NonEmpty(v: Option<Text>): (r: Option<Text>)
    ensures r.Some? <==> Configured(v)
    ensures r.Some? ==> r == v
  {
    if Configured(v) then v else None
  }

  /** `validateInitData(initData, botToken)`; `None` is the source's `null`.
      The only throwing call, `JSON.parse`, is caught inside, so the outer
      `catch` is never reached and the result is always a value. */
  function Validate(initData: Text, botToken: Text, mac: Mac, parseJson: JsonParser): Option<InitData> {
    ValidateParams(SearchParams(initData), botToken, mac, parseJson)
  }

  /** The verification steps once the query string is parsed. */
  function ValidateParams(params: seq<Entry>, botToken: Text, mac: Mac, parseJson: JsonParser): Option<InitData> {
    var rest := Delete(params, HashName);
    Decide(Get(params, HashName), DataString(SortByName(rest)),
           Get(rest, UserName), Get(rest, ChatInstanceName), botToken, mac, parseJson)
  }

  /** Lines 29-68 in order: the hash must be present and non-empty, then it
      must equal the expected hash of the data string, then the user is read. */
  function Decide(hash: Option<Text>, dataString: Text, userParam: Option<Text>, chatParam: Option<Text>,
                  botToken: Text, mac: Mac, parseJson: JsonParser): (r: Option<InitData>)
    ensures r.Some? ==> hash == Some(r.value.hash)
    ensures r.Some? ==> r.value.hash == ExpectedHash(mac, botToken, dataString)
  {
    if !Configured(hash) then None
    else if ExpectedHash(mac, botToken, dataString) != hash.value then None
    else UserOutcome(userParam, NonEmpty(chatParam), hash.value, parseJson)
  }

  /** Lines 52-68: the `user` parameter is parsed only when non-empty, and a
      parse failure turns the whole result into `null`. */
  function UserOutcome(userParam: Option<Text>, chatInstance: Option<Text>, hash: Text, parseJson: JsonParser)
    : (r: Option<InitData>)
    ensures r.Some? ==> r.value.hash == hash && r.value.chatInstance == chatInstance
  {
    if Configured(userParam) then
      match parseJson(userParam.value)
      case None => None
      case Some(u) => Some(InitData(Some(u), chatInstance, hash))
    else Some(InitData(None, chatInstance, hash))
  }

  // ---------------------------------------------------------------------
  // Properties

  lemma NamesDiffer()
    ensures UserName != HashName && ChatInstanceName != HashName
  {
    assert UserName[0] != HashName[0];
    assert ChatInstanceName[0] != HashName[0];
  }

  /** Soundness: an accepted payload carries the first `hash` of the query,
      and that hash is the expected one for the data-check string built from
      the other entries under the bot token. */
  lemma AcceptedIsSigned(initData: Text, botToken: Text, mac: Mac, parseJson: JsonParser)
    ensures
      var r := Validate(initData, botToken, mac, parseJson);
      var params := SearchParams(initData);
      r.Some? ==> Get(params, HashName) == Some(r.value.hash)
                  && r.value.hash == ExpectedHash(mac, botToken, CheckString(params))
  {
  }

  /** No `hash`, or an empty one, is rejected before anything is computed. */
  lemma MissingHashRejected(initData: Text, botToken: Text, mac: Mac, parseJson: JsonParser)
    ensures !Configured(Get(SearchParams(initData), HashName)) ==> Validate(initData, botToken, mac, parseJson) == None
  {
  }

  /** A hash that differs from the expected one is rejected. */
  lemma MismatchRejected(initData: Text, botToken: Text, mac: Mac, parseJson: JsonParser)
    ensures Get(SearchParams(initData), HashName)
              != Some(ExpectedHash(mac, botToken, CheckString(SearchParams(initData))))
            ==> Validate(initData, botToken, mac, parseJson) == None
  {
  }

  /** An accepted hash is 64 lowercase hex digits, so a hash written in
      uppercase is never accepted. */
  lemma AcceptedHashIsLowerHex(initData: Text, botToken: Text, mac: Mac, parseJson: JsonParser)
    ensures Validate(initData, botToken, mac, parseJson).Some? ==>
      var h := Validate(initData, botToken, mac, parseJson).value.hash;
      |h| == 64 && forall i :: 0 <= i < |h| ==> Hex.IsLowerHexDigit(h[i])
  {
  }

  /** Everything about the parameters except `hash` is covered by the signature:
      the check string is built from exactly the non-`hash` entries. */
  lemma CheckStringExcludesHash(params: seq<Entry>)
    ensures forall e :: e in SignedEntries(params) <==> e in params && e.name != HashName
  {
    var r := SignedEntries(params);
    forall e
      ensures e in r <==> e in params && e.name != HashName
    {
      assert e in r <==> e in multiset(r);
      assert e in params <==> e in multiset(params);
    }
  }

  /** The outcome once the signature matches: a present, non-empty `user` must
      parse or the whole result is `null`; an absent or empty one leaves `user`
      undefined; `chat_instance` is kept only when non-empty. */
  lemma SignedOutcome(params: seq<Entry>, botToken: Text, mac: Mac, parseJson: JsonParser)
    requires Configured(Get(params, HashName))
    requires Get(params, HashName).value == ExpectedHash(mac, botToken, CheckString(params))
    ensures
      var hash := Get(params, HashName).value;
      var user := Get(params, UserName);
      var chat := NonEmpty(Get(params, ChatInstanceName));
      ValidateParams(params, botToken, mac, parseJson)
        == if !Configured(user) then Some(InitData(None, chat, hash))
           else if parseJson(user.value).None? then None
           else Some(InitData(parseJson(user.value), chat, hash))
  {
    var hash := Get(params, HashName);
    var rest := Delete(params, HashName);
    var user, chat := Get(params, UserName), NonEmpty(Get(params, ChatInstanceName));
    NamesDiffer();
    DeleteKeepsOthers(params, HashName, UserName);
    DeleteKeepsOthers(params, HashName, ChatInstanceName);
    assert ValidateParams(params, botToken, mac, parseJson) == UserOutcome(user, chat, hash.value, parseJson);
    UserOutcomeCases(user, chat, hash.value, parseJson);
  }

  lemma UserOutcomeCases(user: Option<Text>, chat: Option<Text>, hash: Text, parseJson: JsonParser)
    ensures UserOutcome(user, chat, hash, parseJson)
         == if !Configured(user) then Some(InitData(None, chat, hash))
            else if parseJson(user.value).None? then None
            else Some(InitData(parseJson(user.value), chat, hash))
  {
  }

  /** The result does not depend on the order of the entries as long as no
      name carries two different values (in particular, for distinct names). */
  lemma OrderIndependent(pa: seq<Entry>, pb: seq<Entry>, botToken: Text, mac: Mac, parseJson: JsonParser)
    requires multiset(pa) == multiset(pb)
    requires NamesDetermine(multiset(pa))
    ensures ValidateParams(pa, botToken, mac, parseJson) == ValidateParams(pb, botToken, mac, parseJson)
  {
    GetPermutation(pa, pb, HashName);
    var ra, rb := Delete(pa, HashName), Delete(pb, HashName);
    assert multiset(ra) == multiset(rb);
    assert multiset(ra) <= multiset(pa);
    NamesDetermineSub(multiset(pa), multiset(ra));
    SortOrderIndependent(ra, rb);
    GetPermutation(ra, rb, UserName);
    GetPermutation(ra, rb, ChatInstanceName);
    assert DataString(SortByName(ra)) == DataString(SortByName(rb));
  }
}

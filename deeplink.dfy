/**
  The deeplink encoder that both generator scripts define as
  `build_deeplink`: a fixed three-key payload, serialised to compact JSON,
  UTF-8 encoded, base 64 encoded and placed in the `data` parameter of a
  `paytmmp://mini-app` URI. The three fixed values are a `Config`.
 */
module Deeplink {

  import opened Wrappers
  import opened Json
  import Utf8
  import Base64
  import Strip

  datatype Config = Config(aid: string, merchantCityKey: string, path: string)

  const SCHEME_PREFIX := "paytmmp://mini-app?aId="
  const DATA_MARKER := "&data="

  /** The payload object, its members in insertion order. */
  function Payload(cfg: Config, sourceId: string): Json {
    JObject([
      Member("path", JString(cfg.path)),
      Member("params", JObject([
        Member("merchantCityKey", JString(cfg.merchantCityKey)),
        Member("sourceId", JString(sourceId))])),
      Member("sparams", JObject([
        Member("pullRefresh", JBool(false)),
        Member("canPullDown", JBool(false)),
        Member("showTitleBar", JBool(false))]))])
  }

  /** `json.dumps(payload, separators=(',', ':'))` */
  function PayloadText(cfg: Config, sourceId: string): string {
    Serialize(Payload(cfg, sourceId))
  }

  /** The `data` parameter: base 64 of the UTF-8 bytes of the payload text. */
  function EncodedPayload(cfg: Config, sourceId: string): string {
    Base64.Encode(Utf8.Encode(PayloadText(cfg, sourceId)))
  }

  /** `build_deeplink` */
  function Build(cfg: Config, sourceId: string): string {
    SCHEME_PREFIX + cfg.aid + DATA_MARKER + EncodedPayload(cfg, sourceId)
  }

  /** A key made of printable characters other than the quote and the
      backslash is written as it is, between quotes. */
  lemma {:induction false} QuotePlain(s: string)
    requires forall i :: 0 <= i < |s| ==> IsPrintable(s[i]) && s[i] != '"' && s[i] != '\\'
    ensures Quote(s) == "\"" + s + "\""
  {
    PlainEscape(s);
  }

  lemma {:induction false} PlainEscape(s: string)
    requires forall i :: 0 <= i < |s| ==> IsPrintable(s[i]) && s[i] != '"' && s[i] != '\\'
    ensures EscapeString(s) == s
  {
    if s != [] {
      PlainEscape(s[1..]);
      assert [s[0]] + s[1..] == s;
    }
  }

  /** An object of three members, written out. */
  lemma ObjectOfThree(a: Member, b: Member, c: Member)
    ensures Serialize(JObject([a, b, c]))
      == "{" + SerializeMember(a) + "," + SerializeMember(b) + "," + SerializeMember(c) + "}"
  {
    var ms := [a, b, c];
    var bc := [b, c];
    assert ms[1..] == bc;
    assert bc[1..] == [c];
    assert SerializeMembers([c]) == SerializeMember(c);
    var tail := SerializeMembers(bc);
    assert tail == SerializeMember(b) + ("," + SerializeMember(c));
    assert SerializeMembers(ms) == SerializeMember(a) + ("," + tail);
    Regroup3(SerializeMember(a), SerializeMember(b), SerializeMember(c));
  }

  lemma Regroup3(a: string, b: string, c: string)
    ensures "{" + (a + ("," + (b + ("," + c)))) + "}" == "{" + a + "," + b + "," + c + "}"
  {
  }

  /** An object of two members, written out. */
  lemma ObjectOfTwo(a: Member, b: Member)
    ensures Serialize(JObject([a, b])) == "{" + SerializeMember(a) + "," + SerializeMember(b) + "}"
  {
    var ms := [a, b];
    assert ms[1..] == [b];
    assert SerializeMembers(ms) == SerializeMember(a) + ("," + SerializeMember(b));
    Regroup2(SerializeMember(a), SerializeMember(b));
  }

  lemma Regroup2(a: string, b: string)
    ensures "{" + (a + ("," + b)) + "}" == "{" + a + "," + b + "}"
  {
  }

  /** The inner `params` object for any keys. */
  lemma ParamsShape(kCity: string, kSource: string, cityKey: string, sourceId: string)
    ensures Serialize(JObject([Member(kCity, JString(cityKey)), Member(kSource, JString(sourceId))]))
      == "{" + Quote(kCity) + ":" + Quote(cityKey) + "," + Quote(kSource) + ":" + Quote(sourceId) + "}"
  {
    ObjectOfTwo(Member(kCity, JString(cityKey)), Member(kSource, JString(sourceId)));
    Regroup4(Quote(kCity), ":", Quote(cityKey), ",", Quote(kSource), Quote(sourceId));
  }

  lemma Regroup4(a: string, b: string, c: string, d: string, e: string, f: string)
    ensures "{" + (a + b + c) + d + (e + b + f) + "}" == "{" + a + b + c + d + e + b + f + "}"
  {
  }

  /** The inner `sparams` object for any keys. */
  lemma SparamsShape(kPull: string, kDown: string, kTitle: string)
    ensures Serialize(JObject([Member(kPull, JBool(false)), Member(kDown, JBool(false)), Member(kTitle, JBool(false))]))
      == "{" + Quote(kPull) + ":" + "false" + "," + Quote(kDown) + ":" + "false" + "," + Quote(kTitle) + ":" + "false" + "}"
  {
    ObjectOfThree(Member(kPull, JBool(false)), Member(kDown, JBool(false)), Member(kTitle, JBool(false)));
    Regroup5(Quote(kPull), Quote(kDown), Quote(kTitle), ":", "false", ",");
  }

  lemma Regroup5(a: string, b: string, c: string, colon: string, f: string, comma: string)
    ensures "{" + (a + colon + f) + comma + (b + colon + f) + comma + (c + colon + f) + "}"
         == "{" + a + colon + f + comma + b + colon + f + comma + c + colon + f + "}"
  {
  }

  /** The top-level object for any keys and inner values. */
  lemma TopShape(kPath: string, kParams: string, kSparams: string, path: string, params: Json, sparams: Json)
    ensures Serialize(JObject([Member(kPath, JString(path)), Member(kParams, params), Member(kSparams, sparams)]))
      == "{" + Quote(kPath) + ":" + Quote(path) + "," + Quote(kParams) + ":" + Serialize(params)
         + "," + Quote(kSparams) + ":" + Serialize(sparams) + "}"
  {
    ObjectOfThree(Member(kPath, JString(path)), Member(kParams, params), Member(kSparams, sparams));
    Regroup6(Quote(kPath), Quote(path), Quote(kParams), Serialize(params), Quote(kSparams), Serialize(sparams));
  }

  lemma Regroup6(a: string, b: string, c: string, d: string, e: string, f: string)
    ensures "{" + (a + ":" + b) + "," + (c + ":" + d) + "," + (e + ":" + f) + "}"
         == "{" + a + ":" + b + "," + c + ":" + d + "," + e + ":" + f + "}"
  {
  }

  /** The payload text token by token: keys and string values are quoted
      JSON strings, booleans are `false`, and every separator is a bare
      ',' or ':' with no whitespace around it. */
  lemma PayloadTextExact(cfg: Config, sourceId: string)
    ensures PayloadText(cfg, sourceId)
      == "{" + Quote("path") + ":" + Quote(cfg.path)
         + "," + Quote("params") + ":"
         + ("{" + Quote("merchantCityKey") + ":" + Quote(cfg.merchantCityKey)
            + "," + Quote("sourceId") + ":" + Quote(sourceId) + "}")
         + "," + Quote("sparams") + ":"
         + ("{" + Quote("pullRefresh") + ":" + "false"
            + "," + Quote("canPullDown") + ":" + "false"
            + "," + Quote("showTitleBar") + ":" + "false" + "}")
         + "}"
  {
    var params := JObject([Member("merchantCityKey", JString(cfg.merchantCityKey)), Member("sourceId", JString(sourceId))]);
    var sparams := JObject([Member("pullRefresh", JBool(false)), Member("canPullDown", JBool(false)), Member("showTitleBar", JBool(false))]);
    TopShape("path", "params", "sparams", cfg.path, params, sparams);
    ParamsShape("merchantCityKey", "sourceId", cfg.merchantCityKey, sourceId);
    SparamsShape("pullRefresh", "canPullDown", "showTitleBar");
  }

  const PAYLOAD_KEYS: seq<string> :=
    ["path", "params", "merchantCityKey", "sourceId", "sparams", "pullRefresh", "canPullDown", "showTitleBar"]

  /** Every key of the payload is written between quotes as it is. */
  lemma KeysPlain()
    ensures forall k :: k in PAYLOAD_KEYS ==> Quote(k) == "\"" + k + "\""
  {
    forall k | k in PAYLOAD_KEYS
      ensures Quote(k) == "\"" + k + "\""
    {
      QuotePlain(k);
    }
  }

  /** Everything in front of the encoded payload. */
  function UriPrefix(cfg: Config): string {
    SCHEME_PREFIX + cfg.aid + DATA_MARKER
  }

  /** Reads the station id back out of a deeplink: the reverse of `Build`,
      written against the strict decoders. */
  function ExtractSourceId(cfg: Config, uri: string): Option<string> {
    var p := UriPrefix(cfg);
    if |uri| < |p| || uri[..|p|] != p then None
    else match Base64.Decode(uri[|p|..])
      case None => None
      case Some(bytes) =>
        match Utf8.Decode(bytes)
        case None => None
        case Some(text) =>
          match Parse(text)
          case None => None
          case Some(v) =>
            match Get(v, "params")
            case None => None
            case Some(params) =>
              match Get(params, "sourceId")
              case Some(JString(id)) => Some(id)
              case _ => None
  }

  /** The deeplink is the prefix followed by the encoded payload. */
  lemma BuildSplit(cfg: Config, sourceId: string)
    ensures Build(cfg, sourceId) == UriPrefix(cfg) + EncodedPayload(cfg, sourceId)
    ensures Build(cfg, sourceId)[..|UriPrefix(cfg)|] == UriPrefix(cfg)
    ensures Build(cfg, sourceId)[|UriPrefix(cfg)|..] == EncodedPayload(cfg, sourceId)
  {
  }

  /** The payload's members are found by key. */
  lemma PayloadLookup(cfg: Config, sourceId: string)
    ensures Get(Payload(cfg, sourceId), "params").Some?
    ensures Get(Get(Payload(cfg, sourceId), "params").value, "sourceId") == Some(JString(sourceId))
  {
    var ms := Payload(cfg, sourceId).members;
    assert ms[2].key == "sparams" && ms[1].key == "params";
    assert ms[2].key != "params" by { assert ms[2].key[1] == 'p' && "params"[1] == 'a'; }
    assert ms[..2][1] == ms[1];
    var ps := ms[1].value.members;
    assert ps[1].key == "sourceId";
  }

  /** The payload and its two nested objects have exactly their keys, in
      insertion order. */
  lemma PayloadKeys(cfg: Config, sourceId: string)
    ensures var p := Payload(cfg, sourceId);
      && p.JObject? && Keys(p.members) == ["path", "params", "sparams"]
      && p.members[1].value.JObject?
      && Keys(p.members[1].value.members) == ["merchantCityKey", "sourceId"]
      && p.members[2].value.JObject?
      && Keys(p.members[2].value.members) == ["pullRefresh", "canPullDown", "showTitleBar"]
  {
  }

  /** Decoding the `data` parameter gives the payload's text back. */
  lemma PayloadDecodes(cfg: Config, sourceId: string)
    ensures Base64.Decode(EncodedPayload(cfg, sourceId)) == Some(Utf8.Encode(PayloadText(cfg, sourceId)))
    ensures Utf8.Decode(Utf8.Encode(PayloadText(cfg, sourceId))) == Some(PayloadText(cfg, sourceId))
    ensures Parse(PayloadText(cfg, sourceId)) == Some(Payload(cfg, sourceId))
  {
    Base64.DecodeEncode(Utf8.Encode(PayloadText(cfg, sourceId)));
    Utf8.DecodeEncode(PayloadText(cfg, sourceId));
    ParseSerialize(Payload(cfg, sourceId));
  }

  /** The station id is recoverable from every deeplink. */
  lemma SourceIdRoundTrip(cfg: Config, sourceId: string)
    ensures ExtractSourceId(cfg, Build(cfg, sourceId)) == Some(sourceId)
  {
    BuildSplit(cfg, sourceId);
    PayloadDecodes(cfg, sourceId);
    PayloadLookup(cfg, sourceId);
  }

  /** Different station ids give different deeplinks. */
  lemma BuildInjective(cfg: Config, a: string, b: string)
    requires Build(cfg, a) == Build(cfg, b)
    ensures a == b
  {
    SourceIdRoundTrip(cfg, a);
    SourceIdRoundTrip(cfg, b);
  }

  /** The payload is printable ASCII, so it has one UTF-8 byte per
      character and its encoding has the length base 64 gives that many bytes. */
  lemma EncodedLength(cfg: Config, sourceId: string)
    ensures |Utf8.Encode(PayloadText(cfg, sourceId))| == |PayloadText(cfg, sourceId)|
    ensures |EncodedPayload(cfg, sourceId)| == 4 * ((|PayloadText(cfg, sourceId)| + 2) / 3)
    ensures |PayloadText(cfg, sourceId)| > 0
  {
    PayloadAscii(cfg, sourceId);
    Base64.EncodeLength(Utf8.Encode(PayloadText(cfg, sourceId)));
    PayloadTextExact(cfg, sourceId);
  }

  /** The payload text is ASCII, one byte per character. */
  lemma PayloadAscii(cfg: Config, sourceId: string)
    ensures |Utf8.Encode(PayloadText(cfg, sourceId))| == |PayloadText(cfg, sourceId)|
  {
    var text := PayloadText(cfg, sourceId);
    SerializePrintable(Payload(cfg, sourceId));
    assert Utf8.IsAscii(text) by {
      forall i | 0 <= i < |text| ensures text[i] as int < 0x80 { assert IsPrintable(text[i]); }
    }
    Utf8.EncodeAscii(text);
  }

  /** A deeplink neither starts nor ends with whitespace, so stripping
      it changes nothing. */
  lemma BuildStripped(cfg: Config, sourceId: string)
    ensures Strip.Strip(Build(cfg, sourceId)) == Build(cfg, sourceId)
  {
    var uri := Build(cfg, sourceId);
    var data := EncodedPayload(cfg, sourceId);
    BuildSplit(cfg, sourceId);
    EncodedLength(cfg, sourceId);
    assert |data| > 0;
    assert uri[|uri| - 1] == data[|data| - 1];
    var last := data[|data| - 1];
    Base64.EncodeAlphabet(Utf8.Encode(PayloadText(cfg, sourceId)));
    assert Base64.IsAlphabet(last) || last == '=';
    assert uri[0] == 'p';
    Strip.StripKeeps(uri);
  }
}

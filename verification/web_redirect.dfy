/**
 * The web programmer page's hand-over to the app: the token is cut out of the page URL
 * after "/program/", and two links to the app are built around it, a custom-scheme link
 * and an Android intent link that falls back to the store page. The user-agent test is a
 * parameter.
 */
module WebRedirect {
  import opened Common
  import opened Text
  import HexCodec
  import DeepLinks
  import Login
  import Preferences

  const PROGRAM_PATH := "/program/"
  const WEB_USERNAME := "user_from_web"
  const APP_PACKAGE := "com.example.rfaccess"
  /** The store page, https://play.google.com/store/apps/details?id=com.example.rfaccess, piece by piece. */
  const FALLBACK_URL :=
    "https" + ":" + "/" + "/" + "play.google.com" + "/" + "store" + "/" + "apps" + "/" + "details"
    + "?" + "id" + "=" + "com.example.rfaccess"

  /** The token: the second piece of the URL split at "/program/", when there is one. */
  function ExtractToken(url: string): (token: Option<string>)
    ensures token.None? <==> !Contains(url, PROGRAM_PATH)
    ensures token.Some? ==> !Contains(token.value, PROGRAM_PATH)
    ensures token.Some? ==> token.value == JsSplit(url, PROGRAM_PATH)[1]
  {
    var parts := JsSplit(url, PROGRAM_PATH);
    SplitHasTwoPieces(url, PROGRAM_PATH);
    if |parts| < 2 then None else Some(parts[1])
  }

  /** split yields a second piece exactly when the separator occurs. */
  lemma SplitHasTwoPieces(s: string, pat: string)
    requires |pat| > 0
    ensures |JsSplit(s, pat)| >= 2 <==> Contains(s, pat)
  {
    match IndexOf(s, pat)
    case None =>
    case Some(i) =>
      assert OccursAt(s, pat, i);
  }

  /** The first piece of a split: everything before the first occurrence, or all of `s`. */
  lemma FirstPiece(s: string, pat: string)
    requires |pat| > 0
    ensures JsSplit(s, pat)[0] == match IndexOf(s, pat) case None => s case Some(i) => s[..i]
  {
  }

  /**
   * The token is the text after the first "/program/", up to the next "/program/" or the
   * end of the URL, whichever comes first.
   */
  lemma TokenIsNextSegment(url: string)
    ensures match IndexOf(url, PROGRAM_PATH)
            case None => ExtractToken(url).None?
            case Some(i) =>
              var rest := url[i + |PROGRAM_PATH|..];
              ExtractToken(url) == match IndexOf(rest, PROGRAM_PATH) case None => Some(rest) case Some(j) => Some(rest[..j])
  {
    match IndexOf(url, PROGRAM_PATH)
    case None =>
    case Some(i) =>
      FirstPiece(url[i + |PROGRAM_PATH|..], PROGRAM_PATH);
  }

  /** The query both links carry: username, cardData = token, action; no id. */
  function WebQuery(username: string, token: string): string {
    Query3(username, token, "program")
  }

  /** A three-parameter query, the shape both links share. */
  function Query3(username: string, cardData: string, action: string): string {
    ("username=" + username) + ['&'] + (("cardData=" + cardData) + ['&'] + ("action=" + action))
  }

  /** How a link written as one concatenation splits into origin, query and tail. */
  lemma LinkPieces(origin: string, username: string, token: string, tail: string)
    ensures origin + "?username=" + username + "&cardData=" + token + "&action=program" + tail
         == origin + "?" + Query3(username, token, "program") + tail
  {
    assert "?username=" == "?" + "username=";
    assert "&cardData=" == ['&'] + "cardData=";
    assert "&action=program" == ['&'] + ("action=" + "program");
  }

  /** The custom-scheme link. */
  function AppUrl(token: string): (url: string)
    ensures url == "rfaccess://open" + "?" + WebQuery(WEB_USERNAME, token)
  {
    var url := "rfaccess://open" + "?username=" + WEB_USERNAME + "&cardData=" + token + "&action=program";
    LinkPieces("rfaccess://open", WEB_USERNAME, token, "");
    assert url + "" == url;
    url
  }

  /** encodeURIComponent(fallbackUrl), spelled out (see EncodedFallback). */
  const ENCODED_FALLBACK_URL :=
    "https" + "%3A" + "%2F" + "%2F" + "play.google.com" + "%2F" + "store" + "%2F" + "apps" + "%2F" + "details"
    + "%3F" + "id" + "%3D" + "com.example.rfaccess"

  /** The fragment that turns the link into an Android intent for the app's package. */
  function IntentFragment(): string {
    "Intent;scheme=rfaccess;package=" + APP_PACKAGE + ";S.browser_fallback_url=" + ENCODED_FALLBACK_URL + ";end"
  }

  /** The intent link: the same query under "intent://", then the intent fragment. */
  function IntentUrl(token: string): (url: string)
    ensures url == "intent://open" + "?" + WebQuery(WEB_USERNAME, token) + ("#" + IntentFragment())
  {
    var url := "intent://open" + "?username=" + WEB_USERNAME + "&cardData=" + token + "&action=program" + ("#" + IntentFragment());
    LinkPieces("intent://open", WEB_USERNAME, token, "#" + IntentFragment());
    url
  }

  datatype Outcome =
    | NoToken
    | DesktopInstructions(shownLink: string)
    | OpenApp(token: string, appUrl: string, fallbackUrl: string, intentUrl: string)

  /**
   * redirectToApp: no token, nothing; on a desktop browser, instructions that show the
   * page's own address; on a phone, the links built around the token.
   */
  function RedirectToApp(url: string, isMobile: bool): (r: Outcome)
    ensures r.NoToken? <==> !Contains(url, PROGRAM_PATH)
    ensures r.OpenApp? <==> Contains(url, PROGRAM_PATH) && isMobile
    ensures r.DesktopInstructions? ==> r.shownLink == url
    ensures r.OpenApp? ==> Some(r.token) == ExtractToken(url)
    ensures r.OpenApp? ==> r.appUrl == AppUrl(r.token) && r.intentUrl == IntentUrl(r.token) && r.fallbackUrl == FALLBACK_URL
  {
    match ExtractToken(url)
    case None => NoToken
    case Some(token) =>
      if isMobile then OpenApp(token, AppUrl(token), FALLBACK_URL, IntentUrl(token))
      else DesktopInstructions(url)
  }

  /** A query read under one scheme is the query read under another, when a fragment follows. */
  lemma QueryIgnoresSchemeAndFragment(p1: string, p2: string, q: string, frag: string)
    requires '?' !in p1 && '?' !in p2 && |frag| > 0 && frag[0] == '#'
    ensures DeepLinks.QueryOf(p1 + "?" + q + frag) == DeepLinks.QueryOf(p2 + "?" + q)
  {
    var u1 := p1 + "?" + q + frag;
    var u2 := p2 + "?" + q;
    assert u1 == p1 + ['?'] + (q + frag);
    assert u2 == p2 + ['?'] + q;
    FirstIndexOfJoin(p1, '?', q + frag);
    FirstIndexOfJoin(p2, '?', q);
    assert u1[|p1| + 1..] == q + frag;
    assert u2[|p2| + 1..] == q;
    FirstIndexConcat(q, frag, '#');
    var e := FirstIndex(q, '#');
    assert (q + frag)[..e] == q[..e];
  }

  /** Both links present the app with the same query, whatever the token holds. */
  lemma IntentCarriesSameQuery(token: string)
    ensures DeepLinks.QueryOf(IntentUrl(token)) == DeepLinks.QueryOf(AppUrl(token))
  {
    assert '?' !in "intent://open" && '?' !in "rfaccess://open";
    QueryIgnoresSchemeAndFragment("intent://open", "rfaccess://open", WebQuery(WEB_USERNAME, token), "#" + IntentFragment());
  }

  lemma Query3Splits(username: string, cardData: string, action: string)
    requires DeepLinks.LinkSafe(username) && DeepLinks.LinkSafe(cardData) && DeepLinks.LinkSafe(action)
    ensures SplitOn(Query3(username, cardData, action), '&')
         == ["username=" + username, "cardData=" + cardData, "action=" + action]
  {
    var p1, p2, p3 := "username=" + username, "cardData=" + cardData, "action=" + action;
    assert '&' !in p1;
    assert '&' !in p2;
    assert '&' !in p3;
    SplitOnNoSep(p3, '&');
    var q2 := p2 + ['&'] + p3;
    SplitOnJoin(p2, '&', p3);
    SplitOnJoin(p1, '&', q2);
  }

  lemma Query3Lookup(username: string, cardData: string, action: string)
    ensures var params := ["username=" + username, "cardData=" + cardData, "action=" + action];
            && DeepLinks.Lookup(params, "username") == Some(username)
            && DeepLinks.Lookup(params, "cardData") == Some(cardData)
            && DeepLinks.Lookup(params, "action") == Some(action)
            && DeepLinks.Lookup(params, "id") == None
  {
    var p1, p2, p3 := "username=" + username, "cardData=" + cardData, "action=" + action;
    assert p1 == "username" + "=" + username;
    assert p2 == "cardData" + "=" + cardData;
    assert p3 == "action" + "=" + action;
    DeepLinks.ParamOfJoin("username", username);
    DeepLinks.ParamOfJoin("cardData", cardData);
    DeepLinks.ParamOfJoin("action", action);
    assert "username" != "cardData" && "username" != "action" && "username" != "id";
    assert "cardData" != "action" && "cardData" != "id" && "action" != "id";
    var params := [p1, p2, p3];
    assert params[1..] == [p2, p3];
    assert params[1..][1..] == [p3];
    assert params[1..][1..][1..] == [];
    assert DeepLinks.Lookup([p3], "action") == Some(action);
    assert DeepLinks.Lookup([p2, p3], "cardData") == Some(cardData);
    assert DeepLinks.Lookup([p2, p3], "action") == Some(action);
    assert DeepLinks.Lookup([p3], "id") == None;
    assert DeepLinks.Lookup([p2, p3], "id") == None;
  }

  /** A three-parameter link answers its parameters and has no id. */
  lemma Query3Parses(prefix: string, username: string, cardData: string, action: string)
    requires '?' !in prefix
    requires DeepLinks.LinkSafe(username) && DeepLinks.LinkSafe(cardData) && DeepLinks.LinkSafe(action)
    ensures var url := prefix + "?" + Query3(username, cardData, action);
            && DeepLinks.QueryParameter(url, "username") == Some(username)
            && DeepLinks.QueryParameter(url, "cardData") == Some(cardData)
            && DeepLinks.QueryParameter(url, "action") == Some(action)
            && DeepLinks.QueryParameter(url, "id") == None
  {
    var q := Query3(username, cardData, action);
    assert '#' !in q by {
      var p1, p2, p3 := "username=" + username, "cardData=" + cardData, "action=" + action;
      assert '#' !in p1 && '#' !in p2 && '#' !in p3;
      assert '#' !in p2 + ['&'] + p3;
    }
    DeepLinks.QueryOfJoin(prefix, q);
    Query3Splits(username, cardData, action);
    Query3Lookup(username, cardData, action);
  }

  /**
   * The app link hands the token over as the card data, under the fixed web user name and
   * the "program" action, and without an id.
   */
  lemma AppLinkParses(token: string)
    requires DeepLinks.LinkSafe(token)
    ensures DeepLinks.QueryParameter(AppUrl(token), "username") == Some(WEB_USERNAME)
    ensures DeepLinks.QueryParameter(AppUrl(token), "cardData") == Some(token)
    ensures DeepLinks.QueryParameter(AppUrl(token), "action") == Some("program")
    ensures DeepLinks.QueryParameter(AppUrl(token), "id") == None
  {
    assert DeepLinks.LinkSafe(WEB_USERNAME) && DeepLinks.LinkSafe("program");
    assert '?' !in "rfaccess://open";
    Query3Parses("rfaccess://open", WEB_USERNAME, token, "program");
  }

  /**
   * Opening the app link on the login screen stores the token as the pending card data
   * with the "program" action and prefills the placeholder web user name.
   */
  lemma AppLinkDeliversToken(prefs: Preferences.Prefs, token: string)
    requires DeepLinks.LinkSafe(token) && token != ""
    ensures Login.HandleDeepLink(prefs, Some(AppUrl(token)))
         == (prefs.(pendingCardData := Some(token), deepLinkAction := Some("program")), Some(WEB_USERNAME))
  {
    AppLinkParses(token);
  }

  /** encodeURIComponent's unreserved characters: letters, digits and - _ . ! ~ * ' ( ). */
  predicate IsUriUnreserved(c: char) {
    || ('A' <= c <= 'Z') || ('a' <= c <= 'z') || ('0' <= c <= '9')
    || c == '-' || c == '_' || c == '.' || c == '!' || c == '~' || c == '*' || c == '\'' || c == '(' || c == ')'
  }

  predicate IsAscii(s: string) {
    forall i :: 0 <= i < |s| ==> s[i] < 128 as char
  }

  /** The UTF-8 bytes of a character, as encodeURIComponent escapes them. */
  function Utf8(c: char): (bs: seq<byte>)
    ensures 1 <= |bs| <= 4
    ensures |bs| == 1 <==> c < 128 as char
    ensures |bs| == 1 ==> bs[0] == c as int
  {
    var n := c as int;
    if n < 0x80 then [n]
    else if n < 0x800 then [0xC0 + n / 0x40, 0x80 + n % 0x40]
    else if n < 0x10000 then [0xE0 + n / 0x1000, 0x80 + n / 0x40 % 0x40, 0x80 + n % 0x40]
    else [0xF0 + n / 0x40000, 0x80 + n / 0x1000 % 0x40, 0x80 + n / 0x40 % 0x40, 0x80 + n % 0x40]
  }

  /** Each byte as '%' and two upper-case hex digits. */
  function PercentEscape(bs: seq<byte>): (e: string)
    ensures |e| == 3 * |bs|
    ensures forall k :: 0 <= k < |e| ==> e[k] == '%' || HexCodec.IsUpperHexDigit(e[k])
    ensures |bs| > 0 ==> e[..3] == "%" + HexCodec.ByteToHex(bs[0]) && e[3..] == PercentEscape(bs[1..])
  {
    if |bs| == 0 then ""
    else
      var head := "%" + HexCodec.ByteToHex(bs[0]);
      var tail := PercentEscape(bs[1..]);
      assert forall k :: 3 <= k < 3 + |tail| ==> (head + tail)[k] == tail[k - 3];
      head + tail
  }

  /** One character: itself if unreserved, else its UTF-8 bytes escaped. */
  function EncodeChar(c: char): (e: string)
    ensures |e| == 1 <==> IsUriUnreserved(c)
    ensures |e| == 1 ==> e == [c]
    ensures c < 128 as char && !IsUriUnreserved(c) ==>
              && |e| == 3 && e[0] == '%' && HexCodec.IsHexDigit(e[1]) && HexCodec.IsHexDigit(e[2])
              && HexCodec.PairValue(e[1], e[2]) == c as int
    ensures forall k :: 0 <= k < |e| ==> IsUriUnreserved(e[k]) || e[k] == '%'
  {
    if IsUriUnreserved(c) then [c]
    else
      var e := PercentEscape(Utf8(c));
      assert c < 128 as char ==> e == "%" + HexCodec.ByteToHex(c as int);
      e
  }

  /** encodeURIComponent. */
  function EncodeUriComponent(s: string): (r: string)
    ensures forall k :: 0 <= k < |r| ==> IsUriUnreserved(r[k]) || r[k] == '%'
  {
    if |s| == 0 then ""
    else
      var head := EncodeChar(s[0]);
      var tail := EncodeUriComponent(s[1..]);
      assert forall k :: |head| <= k < |head| + |tail| ==> (head + tail)[k] == tail[k - |head|];
      head + tail
  }

  /** Encoding works character by character. */
  lemma {:induction false} EncodeAppend(a: string, b: string)
    ensures EncodeUriComponent(a + b) == EncodeUriComponent(a) + EncodeUriComponent(b)
  {
    if |a| > 0 {
      assert (a + b)[1..] == a[1..] + b;
      EncodeAppend(a[1..], b);
    } else {
      assert a + b == b;
    }
  }

  /** Text made of unreserved characters is left as it is. */
  lemma {:induction false} EncodeUnreserved(s: string)
    requires AllUnreserved(s)
    ensures EncodeUriComponent(s) == s
  {
    if |s| > 0 {
      EncodeUnreserved(s[1..]);
    }
  }

  /** decodeURIComponent on ASCII escapes: a '%' and two hex digits become one character. */
  function DecodeUriComponent(s: string): string {
    if |s| >= 3 && s[0] == '%' && HexCodec.IsHexDigit(s[1]) && HexCodec.IsHexDigit(s[2]) then
      [HexCodec.PairValue(s[1], s[2]) as char] + DecodeUriComponent(s[3..])
    else if |s| > 0 then [s[0]] + DecodeUriComponent(s[1..])
    else ""
  }

  /** Encoding loses nothing: decoding gives ASCII text back. */
  lemma {:induction false} UriRoundTrip(s: string)
    requires IsAscii(s)
    ensures DecodeUriComponent(EncodeUriComponent(s)) == s
  {
    if |s| > 0 {
      var head := EncodeChar(s[0]);
      var tail := EncodeUriComponent(s[1..]);
      var e := head + tail;
      UriRoundTrip(s[1..]);
      if |head| == 3 {
        assert e[0] == '%' && e[1] == head[1] && e[2] == head[2];
        assert e[3..] == tail;
      } else {
        assert e[0] == s[0] && s[0] != '%';
        assert e[1..] == tail;
      }
    }
  }

  /** The four reserved characters of the store URL and their escapes. */
  lemma ReservedEscapes()
    ensures EncodeUriComponent(":") == "%3A"
    ensures EncodeUriComponent("/") == "%2F"
    ensures EncodeUriComponent("?") == "%3F"
    ensures EncodeUriComponent("=") == "%3D"
  {
  }

  predicate AllUnreserved(s: string) {
    forall i :: 0 <= i < |s| ==> IsUriUnreserved(s[i])
  }

  /** Encoding a URL of the store's shape escapes exactly its separators: the origin. */
  lemma EncodeOriginShape(scheme: string, host: string)
    requires AllUnreserved(scheme) && AllUnreserved(host)
    ensures EncodeUriComponent(scheme + ":" + "/" + "/" + host) == scheme + "%3A" + "%2F" + "%2F" + host
  {
    ReservedEscapes();
    EncodeUnreserved(scheme);
    EncodeUnreserved(host);
    var u1 := scheme + ":";
    var u2 := u1 + "/";
    var u3 := u2 + "/";
    EncodeAppend(scheme, ":");
    EncodeAppend(u1, "/");
    EncodeAppend(u2, "/");
    EncodeAppend(u3, host);
  }

  /** One more separator and unreserved piece after an encoded prefix. */
  lemma EncodeSegment(prefix: string, sep: string, piece: string)
    requires AllUnreserved(piece)
    ensures EncodeUriComponent(prefix + sep + piece) == EncodeUriComponent(prefix) + EncodeUriComponent(sep) + piece
  {
    EncodeUnreserved(piece);
    EncodeAppend(prefix, sep);
    EncodeAppend(prefix + sep, piece);
  }

  /** The encoded fallback spelled out in the intent fragment is encodeURIComponent of the store URL. */
  lemma EncodedFallback()
    ensures EncodeUriComponent(FALLBACK_URL) == ENCODED_FALLBACK_URL
  {
    ReservedEscapes();
    var host, p1, p2, p3, key, value := "play.google.com", "store", "apps", "details", "id", "com.example.rfaccess";
    assert AllUnreserved("https") && AllUnreserved(host);
    assert AllUnreserved(p1) && AllUnreserved(p2) && AllUnreserved(p3);
    assert AllUnreserved(key) && AllUnreserved(value);
    var u4 := "https" + ":" + "/" + "/" + host;
    EncodeOriginShape("https", host);
    var u6 := u4 + "/" + p1;
    EncodeSegment(u4, "/", p1);
    var u8 := u6 + "/" + p2;
    EncodeSegment(u6, "/", p2);
    var u10 := u8 + "/" + p3;
    EncodeSegment(u8, "/", p3);
    var u12 := u10 + "?" + key;
    EncodeSegment(u10, "?", key);
    EncodeSegment(u12, "=", value);
  }

  /**
   * Encoded text never contains the characters that structure a link or an intent
   * fragment, so the encoded fallback cannot end the fragment's fields early.
   */
  lemma EncodedHasNoSeparators(s: string)
    ensures var e := EncodeUriComponent(s);
            && ';' !in e && '#' !in e && '&' !in e && '=' !in e && '?' !in e && '/' !in e && ':' !in e
  {
    var e := EncodeUriComponent(s);
    assert forall k :: 0 <= k < |e| ==> e[k] != ';' && e[k] != '#' && e[k] != '&' && e[k] != '=' && e[k] != '?' && e[k] != '/' && e[k] != ':';
  }
}

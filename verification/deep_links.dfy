/**
 * The provisioning link: how DistributionManager renders a distribution as a URI, and
 * how the receiving side reads query parameters back out of such a URI.
 */
module DeepLinks {
  import opened Common
  import opened Text

  /** Distribution.generateDeepLink: plain concatenation, nothing is escaped. */
  function GenerateDeepLink(username: string, cardData: string, id: string): (link: string)
    ensures |link| == |"rfaccess://open?username=&cardData=&action=program&id="| + |username| + |cardData| + |id|
    ensures link[|link| - |id|..] == id
  {
    "rfaccess://open?username=" + username + "&cardData=" + cardData + "&action=program&id=" + id
  }

  /** The encoded query of a URI: after the first '?' and before the next '#'; absent without a '?'. */
  function QueryOf(uri: string): (q: Option<string>)
    ensures q.Some? ==> '#' !in q.value
  {
    var i := FirstIndex(uri, '?');
    if i == |uri| then None
    else
      var rest := uri[i + 1..];
      var e := FirstIndex(rest, '#');
      assert forall k :: 0 <= k < e ==> rest[..e][k] == rest[k];
      Some(rest[..e])
  }

  /** The name of a `name=value` query parameter: everything before its first '='. */
  function ParamName(p: string): string {
    p[..FirstIndex(p, '=')]
  }

  /** The value of a query parameter: everything after its first '=', or "" when it has none. */
  function ParamValue(p: string): string {
    var e := FirstIndex(p, '=');
    if e == |p| then "" else p[e + 1..]
  }

  /** The value of the first parameter called `name`. */
  function Lookup(params: seq<string>, name: string): (r: Option<string>)
    ensures r.None? <==> forall k :: 0 <= k < |params| ==> ParamName(params[k]) != name
    ensures r.Some? ==> exists k :: (&& 0 <= k < |params| && ParamName(params[k]) == name && r.value == ParamValue(params[k])
                                     && forall j :: 0 <= j < k ==> ParamName(params[j]) != name)
  {
    if |params| == 0 then None
    else if ParamName(params[0]) == name then Some(ParamValue(params[0]))
    else
      var r := Lookup(params[1..], name);
      assert forall k :: 1 <= k < |params| ==> params[k] == params[1..][k - 1];
      r
  }

  /**
   * Uri.getQueryParameter: split the query at '&' and answer the first parameter with the
   * name. The platform also undoes %-escapes and '+'; links free of those characters are
   * the only ones this model reads (see LinkSafe).
   */
  function QueryParameter(uri: string, name: string): Option<string> {
    match QueryOf(uri)
    case None => None
    case Some(q) => Lookup(SplitOn(q, '&'), name)
  }

  /** A value that survives the trip through a link unchanged: no separator and nothing to decode. */
  predicate LinkSafe(s: string) {
    '&' !in s && '#' !in s && '%' !in s && '+' !in s
  }

  lemma QueryOfJoin(prefix: string, q: string)
    requires '?' !in prefix && '#' !in q
    ensures QueryOf(prefix + "?" + q) == Some(q)
  {
    var uri := prefix + "?" + q;
    assert uri == prefix + ['?'] + q;
    FirstIndexOfJoin(prefix, '?', q);
    assert uri[|prefix| + 1..] == q;
    FirstIndexAbsent(q, '#');
    assert q[..|q|] == q;
  }

  lemma ParamOfJoin(name: string, value: string)
    requires '=' !in name
    ensures ParamName(name + "=" + value) == name
    ensures ParamValue(name + "=" + value) == value
  {
    var p := name + "=" + value;
    assert p == name + ['='] + value;
    FirstIndexOfJoin(name, '=', value);
    assert p[..|name|] == name;
    assert p[|name| + 1..] == value;
  }

  /** The query of a generated link, as the parameters it is made of. */
  function LinkQuery(username: string, cardData: string, id: string): string {
    ("username=" + username) + ['&'] + (("cardData=" + cardData) + ['&'] + ("action=program" + ['&'] + ("id=" + id)))
  }

  lemma LinkShape(username: string, cardData: string, id: string)
    ensures GenerateDeepLink(username, cardData, id) == "rfaccess://open" + "?" + LinkQuery(username, cardData, id)
  {
    assert "rfaccess://open?username=" == "rfaccess://open" + "?" + "username=";
    assert "&cardData=" == ['&'] + "cardData=";
    assert "&action=program&id=" == ['&'] + "action=program" + ['&'] + "id=";
  }

  lemma LinkQueryHasNoHash(username: string, cardData: string, id: string)
    requires '#' !in username && '#' !in cardData && '#' !in id
    ensures '#' !in LinkQuery(username, cardData, id)
  {
    var p1, p2, p3, p4 := "username=" + username, "cardData=" + cardData, "action=program", "id=" + id;
    assert '#' !in p1 && '#' !in p2 && '#' !in p3 && '#' !in p4;
    var q3 := p3 + ['&'] + p4;
    var q2 := p2 + ['&'] + q3;
    assert '#' !in q3;
    assert '#' !in q2;
  }

  lemma GeneratedLinkQuery(username: string, cardData: string, id: string)
    requires LinkSafe(username) && LinkSafe(cardData) && LinkSafe(id)
    ensures QueryOf(GenerateDeepLink(username, cardData, id)) == Some(LinkQuery(username, cardData, id))
  {
    LinkShape(username, cardData, id);
    LinkQueryHasNoHash(username, cardData, id);
    assert '?' !in "rfaccess://open";
    QueryOfJoin("rfaccess://open", LinkQuery(username, cardData, id));
  }

  lemma LinkQuerySplits(username: string, cardData: string, id: string)
    requires LinkSafe(username) && LinkSafe(cardData) && LinkSafe(id)
    ensures SplitOn(LinkQuery(username, cardData, id), '&')
         == ["username=" + username, "cardData=" + cardData, "action=program", "id=" + id]
  {
    var p1, p2, p3, p4 := "username=" + username, "cardData=" + cardData, "action=program", "id=" + id;
    assert '&' !in p1 && '&' !in p2 && '&' !in p3 && '&' !in p4;
    SplitFour(p1, p2, p3, p4);
  }

  /** Four separator-free pieces joined with '&' split back into those pieces. */
  lemma SplitFour(p1: string, p2: string, p3: string, p4: string)
    requires '&' !in p1 && '&' !in p2 && '&' !in p3 && '&' !in p4
    ensures SplitOn(p1 + ['&'] + (p2 + ['&'] + (p3 + ['&'] + p4)), '&') == [p1, p2, p3, p4]
  {
    SplitOnNoSep(p4, '&');
    SplitOnJoin(p3, '&', p4);
    SplitOnJoin(p2, '&', p3 + ['&'] + p4);
    SplitOnJoin(p1, '&', p2 + ['&'] + (p3 + ['&'] + p4));
  }

  /** The parameters of a generated link answer the four names. */
  lemma LinkParamsLookup(username: string, cardData: string, id: string)
    ensures var params := ["username=" + username, "cardData=" + cardData, "action=program", "id=" + id];
            && Lookup(params, "username") == Some(username)
            && Lookup(params, "cardData") == Some(cardData)
            && Lookup(params, "action") == Some("program")
            && Lookup(params, "id") == Some(id)
  {
    var p1, p2, p3, p4 := "username=" + username, "cardData=" + cardData, "action=program", "id=" + id;
    var params := [p1, p2, p3, p4];
    assert p1 == "username" + "=" + username;
    assert p2 == "cardData" + "=" + cardData;
    assert p3 == "action" + "=" + "program";
    assert p4 == "id" + "=" + id;
    ParamOfJoin("username", username);
    ParamOfJoin("cardData", cardData);
    ParamOfJoin("action", "program");
    ParamOfJoin("id", id);
    assert "username" != "cardData" && "username" != "action" && "username" != "id";
    assert "cardData" != "action" && "cardData" != "id" && "action" != "id";
    assert params[1..] == [p2, p3, p4];
    assert params[1..][1..] == [p3, p4];
    assert params[1..][1..][1..] == [p4];
    assert Lookup([p2, p3, p4], "cardData") == Some(cardData);
    assert Lookup([p3, p4], "action") == Some("program");
    assert Lookup([p2, p3, p4], "action") == Some("program");
    assert Lookup([p4], "id") == Some(id);
    assert Lookup([p3, p4], "id") == Some(id);
    assert Lookup([p2, p3, p4], "id") == Some(id);
  }

  /** The four fields a generated link carries come back out of it unchanged. */
  lemma GeneratedLinkParses(username: string, cardData: string, id: string)
    requires LinkSafe(username) && LinkSafe(cardData) && LinkSafe(id)
    ensures QueryParameter(GenerateDeepLink(username, cardData, id), "username") == Some(username)
    ensures QueryParameter(GenerateDeepLink(username, cardData, id), "cardData") == Some(cardData)
    ensures QueryParameter(GenerateDeepLink(username, cardData, id), "action") == Some("program")
    ensures QueryParameter(GenerateDeepLink(username, cardData, id), "id") == Some(id)
  {
    GeneratedLinkQuery(username, cardData, id);
    LinkQuerySplits(username, cardData, id);
    LinkParamsLookup(username, cardData, id);
  }
}

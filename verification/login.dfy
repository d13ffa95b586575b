/**
 * The login screen: what it does with a provisioning link once the link's parameters are
 * read, which usernames it accepts, and which screen a stored login leads to.
 */
module Login {
  import opened Common
  import opened Text
  import opened Preferences
  import DeepLinks

  /** The three query parameters the screen asks a link for; an absent one is `None`. */
  datatype LinkParams = LinkParams(username: Option<string>, cardData: Option<string>, action: Option<string>)

  const DEFAULT_ACTION := "program"

  /** A parameter that is there and not empty. */
  predicate Present(p: Option<string>) {
    p.Some? && p.value != ""
  }

  /**
   * handleDeepLink after parsing: a non-empty username only prefills the username field;
   * a non-empty card payload is stored as pending together with the link's action, or
   * "program" when the link names none. Nothing else is written.
   */
  function ApplyLink(prefs: Prefs, link: LinkParams): (r: (Prefs, Option<string>))
    ensures r.1.Some? <==> Present(link.username)
    ensures r.1.Some? ==> r.1 == link.username
    ensures !Present(link.cardData) ==> r.0 == prefs
    ensures Present(link.cardData) ==>
              && r.0.pendingCardData == link.cardData
              && r.0.deepLinkAction == Some(link.action.GetOr(DEFAULT_ACTION))
              && (link.action.None? ==> r.0.deepLinkAction == Some(DEFAULT_ACTION))
    ensures r.0.(pendingCardData := prefs.pendingCardData, deepLinkAction := prefs.deepLinkAction) == prefs
  {
    var prefill := if Present(link.username) then link.username else None;
    if Present(link.cardData) then
      (prefs.(pendingCardData := link.cardData, deepLinkAction := Some(link.action.GetOr(DEFAULT_ACTION))), prefill)
    else
      (prefs, prefill)
  }

  /** The parameters the screen reads from a link. */
  function ReadLink(uri: string): LinkParams {
    LinkParams(
      DeepLinks.QueryParameter(uri, "username"),
      DeepLinks.QueryParameter(uri, "cardData"),
      DeepLinks.QueryParameter(uri, "action"))
  }

  /** handleDeepLink: an intent without data changes nothing and prefills nothing. */
  function HandleDeepLink(prefs: Prefs, data: Option<string>): (r: (Prefs, Option<string>))
    ensures data.None? ==> r == (prefs, None)
    ensures r.0.(pendingCardData := prefs.pendingCardData, deepLinkAction := prefs.deepLinkAction) == prefs
  {
    match data
    case None => (prefs, None)
    case Some(uri) => ApplyLink(prefs, ReadLink(uri))
  }

  /**
   * A link the admin device generated delivers its payload: opening it stores the card
   * data as pending with action "program" and prefills the recipient's name.
   */
  lemma GeneratedLinkDelivers(prefs: Prefs, username: string, cardData: string, id: string)
    requires DeepLinks.LinkSafe(username) && DeepLinks.LinkSafe(cardData) && DeepLinks.LinkSafe(id)
    requires username != "" && cardData != ""
    ensures HandleDeepLink(prefs, Some(DeepLinks.GenerateDeepLink(username, cardData, id)))
         == (prefs.(pendingCardData := Some(cardData), deepLinkAction := Some("program")), Some(username))
  {
    DeepLinks.GeneratedLinkParses(username, cardData, id);
  }

  const MIN_USERNAME_LENGTH := 3

  /** The keys a successful login writes. */
  function SignIn(prefs: Prefs, username: string, admin: bool): Prefs {
    prefs.(username := Some(username), isLoggedIn := Some(true), isAdmin := Some(admin))
  }

  /**
   * handleUserLogin: the trimmed name must be at least three UTF-16 code units long; then
   * it is stored as a logged-in non-admin user. A rejected name writes nothing.
   */
  function UserLogin(prefs: Prefs, input: string): (r: Option<Prefs>)
    ensures r.Some? <==> Utf16Length(Trim(input)) >= MIN_USERNAME_LENGTH
    ensures r.Some? ==> && r.value.username == Some(Trim(input))
                        && r.value.isLoggedIn == Some(true)
                        && r.value.isAdmin == Some(false)
                        && r.value.(username := prefs.username, isLoggedIn := prefs.isLoggedIn, isAdmin := prefs.isAdmin) == prefs
  {
    var username := Trim(input);
    if Utf16Length(username) < MIN_USERNAME_LENGTH then None else Some(SignIn(prefs, username, false))
  }

  /**
   * The length rule counts UTF-16 units: a name of two characters passes when one of them
   * lies beyond U+FFFF, and a name of three characters always passes.
   */
  lemma UserLoginCountsUtf16Units(prefs: Prefs, name: string)
    requires |name| >= 1 && !IsTrimSpace(name[0]) && !IsTrimSpace(name[|name| - 1])
    ensures Trim(name) == name
    ensures |name| >= MIN_USERNAME_LENGTH ==> UserLogin(prefs, name).Some?
    ensures |name| == 2 && name[1] as int >= 0x10000 ==> UserLogin(prefs, name).Some?
    ensures |name| == 2 && name[0] as int < 0x10000 && name[1] as int < 0x10000 ==> UserLogin(prefs, name).None?
  {
    assert LeadingSpaces(name) == 0;
    assert name[0..] == name;
    if |name| == 2 {
      assert name[1..][1..] == [];
    }
  }

  /** isAdminUsername. */
  predicate IsAdminUsername(username: string) {
    username == "admin" || username == "administrator"
  }

  /**
   * handleAdminLogin: the trimmed, lower-cased name must be an admin name; it is stored
   * lower-cased as a logged-in admin. A rejected name writes nothing.
   */
  function AdminLogin(prefs: Prefs, input: string): (r: Option<Prefs>)
    ensures r.Some? <==> IsAdminUsername(ToLower(Trim(input)))
    ensures r.Some? ==> && r.value.username == Some(ToLower(Trim(input)))
                        && r.value.isLoggedIn == Some(true)
                        && r.value.isAdmin == Some(true)
                        && r.value.(username := prefs.username, isLoggedIn := prefs.isLoggedIn, isAdmin := prefs.isAdmin) == prefs
  {
    var username := ToLower(Trim(input));
    if !IsAdminUsername(username) then None else Some(SignIn(prefs, username, true))
  }

  /** `a` and `b` are equal once ASCII letters are folded to lower case. */
  predicate EqualsIgnoreCase(a: string, b: string) {
    |a| == |b| && forall i :: 0 <= i < |a| ==> LowerChar(a[i]) == LowerChar(b[i])
  }

  lemma LowerOfLowerWord(a: string, word: string)
    requires forall i :: 0 <= i < |word| ==> LowerChar(word[i]) == word[i]
    ensures ToLower(a) == word <==> EqualsIgnoreCase(a, word)
  {
    if EqualsIgnoreCase(a, word) {
      assert forall i :: 0 <= i < |a| ==> ToLower(a)[i] == word[i];
    }
  }

  /**
   * The admin button accepts exactly "admin" and "administrator" in any letter case, with
   * surrounding spaces, and always stores the name in lower case.
   */
  lemma AdminLoginIgnoresCase(prefs: Prefs, input: string)
    ensures AdminLogin(prefs, input).Some? <==>
              EqualsIgnoreCase(Trim(input), "admin") || EqualsIgnoreCase(Trim(input), "administrator")
    ensures AdminLogin(prefs, input).Some? ==>
              AdminLogin(prefs, input).value.username in {Some("admin"), Some("administrator")}
  {
    LowerOfLowerWord(Trim(input), "admin");
    LowerOfLowerWord(Trim(input), "administrator");
  }

  datatype Screen = LoginScreen | MainScreen | AdminScreen

  /** checkExistingLogin: where a start with the stored keys leads (unset flags read as false). */
  function StartScreen(prefs: Prefs): Screen {
    if !prefs.isLoggedIn.GetOr(false) then LoginScreen
    else if prefs.isAdmin.GetOr(false) then AdminScreen
    else MainScreen
  }

  /**
   * A fresh installation shows the login screen; after either login the next start goes
   * straight to that login's screen, and opening a link afterwards does not change it.
   */
  lemma LoginIsRemembered(prefs: Prefs, input: string, data: Option<string>)
    ensures StartScreen(Empty) == LoginScreen
    ensures UserLogin(prefs, input).Some? ==> StartScreen(UserLogin(prefs, input).value) == MainScreen
    ensures AdminLogin(prefs, input).Some? ==> StartScreen(AdminLogin(prefs, input).value) == AdminScreen
    ensures StartScreen(HandleDeepLink(prefs, data).0) == StartScreen(prefs)
  {
    var p := HandleDeepLink(prefs, data).0;
    assert p.isLoggedIn == prefs.isLoggedIn && p.isAdmin == prefs.isAdmin by {
      assert p.(pendingCardData := prefs.pendingCardData, deepLinkAction := prefs.deepLinkAction) == prefs;
    }
  }
}

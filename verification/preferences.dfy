/**
 * The "RFAccessPrefs" key-value file shared by the emulation service, the emulation
 * control screen and the login screen. A key that was never written is `None`.
 */
module Preferences {
  import opened Common

  datatype Prefs = Prefs(
    emulationData: Option<string>,
    emulationActive: Option<bool>,
    username: Option<string>,
    isLoggedIn: Option<bool>,
    isAdmin: Option<bool>,
    pendingCardData: Option<string>,
    deepLinkAction: Option<string>)

  /** A fresh installation: no key has been written. */
  const Empty := Prefs(None, None, None, None, None, None, None)
}

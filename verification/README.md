# RF-Access core, modelled in Dafny

RF-Access provisions a door-access credential onto an Android phone and makes the phone
answer a contactless reader as if it were the card. This project models the logic under
that flow as pure Dafny functions over immutable data, and proves what each piece
promises.

- **Emulation service** (`emulation_service.dfy`, `hex_codec.dfy`). `MifareEmulationService` answers reader frames (APDUs).
  - An activity gate runs first.
  - Then SELECT, READ BINARY and UPDATE BINARY are recognised, in that order.
  - The card image is stored in the `RFAccessPrefs` file as the hex text the admin entered, in either case. The codec itself renders upper-case hex.
  - There is a 1 KiB default card.
- **Distribution store** (`distributions.dfy`, `deep_links.dfy`). `DistributionManager` keeps the admin device's ordered list of issued credentials.
  - Each record has a provisioning link `rfaccess://open?...`.
  - Operations: create, save, delete, age-based delete, reissue, look-up and clear.
- **Emulation control screen** (`emulation_control.dfy`). The `isValidHex` guard sits in front of the local store and in front of the remote push command.
- **Login screen** (`login.dfy`). What the screen does with a provisioning link's parameters, which names the two login buttons accept, and where a remembered login leads.
- **Admin portal** (`admin_portal.dfy`). The Flask server's one-shot distribution tokens:
  - issued with a 24-hour lifetime;
  - redeemed through an ordered list of checks;
  - marked used by the device.
  - The duplicate check when adding an end user is modelled too.
- **Web redirect** (`web_redirect.dfy`). The web programmer page cuts the token out of its URL and builds the app link and the Android intent link around it.
  - `encodeURIComponent` is modelled, including UTF-8 escaping.

`common.dfy`, `text.dfy` and `preferences.dfy` hold shared vocabulary:
- an option type;
- bytes as `0..255` (the unsigned reading `b & 0xFF` of a Java byte);
- Java's `trim`, `length()` in UTF-16 code units, and ASCII `toLowerCase`;
- JavaScript's `split`;
- the preferences record.

Identifiers, tokens and the clock are parameters. A fresh identifier is one that the store does not hold yet.

Where the documented behaviour and the code differ, the model follows the code:
- **Corrupt store.** A corrupt distribution store is not read as empty. `getAllDistributions` returns the records it parsed before the failure. The model has no persistence layer, so this case does not arise in it (see Left out).
- **"All distributions".** The admin screen's "All distributions" choice calls `clearAllDistributions`, not `deleteOldDistributions`. `Distributions.UnboundedAgeDeletesNothing` shows why: a `Long.MAX_VALUE` age deletes nothing.
- **READ length byte.** A READ length byte of 0 means zero data bytes, not 256. The offset is the full 16-bit P1-P2 value.
- **Bad hex.** Bad hex is not rejected by the codec. It is rejected only by the screen's guard in front of it.

## Model

| member | source | states |
|---|---|---|
| EmulationService.Classify | rf-access-app/app/src/main/java/com/example/rfaccess/MifareEmulationService.java:47-94 | a frame is SELECT iff it has ≥ 4 bytes starting 00 A4 04 00; READ iff ≥ 2 bytes starting 00 B0; UPDATE iff ≥ 2 bytes starting 00 D6; otherwise unrecognised |
| EmulationService.ReadOffset | rf-access-app/app/src/main/java/com/example/rfaccess/MifareEmulationService.java:103-108 | the offset is below 65536: 0 for frames under 4 bytes, else its high byte is frame[2] and its low byte frame[3] |
| EmulationService.ReadLength | rf-access-app/app/src/main/java/com/example/rfaccess/MifareEmulationService.java:104-111 | the length is at most 255: 16 for frames under 5 bytes, else frame[4] |
| EmulationService.ReadResponse | rf-access-app/app/src/main/java/com/example/rfaccess/MifareEmulationService.java:113-122 | the answer has length+2 bytes and ends 90 00; data byte i is image byte offset+i while the image lasts, else 0 |
| EmulationService.HandleReadCommand | rf-access-app/app/src/main/java/com/example/rfaccess/MifareEmulationService.java:96-126 | with no image loaded, the answer is 6A 82; otherwise it is the read answer at the parsed offset and length |
| EmulationService.HandleUpdateCommand | rf-access-app/app/src/main/java/com/example/rfaccess/MifareEmulationService.java:128-132 | UPDATE BINARY is always answered 6F 00 |
| EmulationService.ProcessCommandApdu | rf-access-app/app/src/main/java/com/example/rfaccess/MifareEmulationService.java:39-68 | inactive gives 6F 00; SELECT gives 90 00; READ gives the read answer; UPDATE and unknown frames give 6F 00 |
| EmulationService.RunKeepsState | rf-access-app/app/src/main/java/com/example/rfaccess/MifareEmulationService.java:39-132 | a session's answers are the single-frame answers, one per frame and in order, so each depends only on its own frame; that no frame, writes included, changes the gate or the image holds by construction, since the callback assigns no field |
| EmulationService.InactiveRejectsEverything | rf-access-app/app/src/main/java/com/example/rfaccess/MifareEmulationService.java:42-45 | with the gate off, every frame is answered exactly 6F 00 |
| EmulationService.ShortFrameRejected | rf-access-app/app/src/main/java/com/example/rfaccess/MifareEmulationService.java:76-94 | frames shorter than 2 bytes are answered 6F 00 in every state |
| EmulationService.ReadAnswer | rf-access-app/app/src/main/java/com/example/rfaccess/MifareEmulationService.java:103-122 | an active READ on a loaded image returns length+2 bytes ending 90 00, with data byte i = image[offset+i] or 0 past the image |
| EmulationService.ReadWithoutImage | rf-access-app/app/src/main/java/com/example/rfaccess/MifareEmulationService.java:97-100 | an active READ with no image is answered 6A 82 |
| EmulationService.AnswerAlwaysEndsInStatus | rf-access-app/app/src/main/java/com/example/rfaccess/MifareEmulationService.java:39-68 | every answer has at least 2 bytes and is 6F 00, 6A 82, or ends in 90 00 |
| EmulationService.DefaultCardData | rf-access-app/app/src/main/java/com/example/rfaccess/MifareEmulationService.java:148-164 | the default card has 1024 bytes: 12 34 56 78 9A, zeros up to 16, the ASCII of "RF ACCESS CARD" at 16..29, zeros after |
| EmulationService.LoadEmulationData | rf-access-app/app/src/main/java/com/example/rfaccess/MifareEmulationService.java:134-146 | the gate is on iff the stored flag is true (unset reads as off); the image is the default card when nothing is stored, else the parsed hex (half its length) |
| EmulationService.UpdateEmulationData | rf-access-app/app/src/main/java/com/example/rfaccess/MifareEmulationService.java:216-224 | writes the two emulation keys and leaves every other key unchanged |
| EmulationService.LoadAfterUpdate | rf-access-app/app/src/main/java/com/example/rfaccess/MifareEmulationService.java:216-224 | a service loading after storing bytes b as hex emulates exactly b behind the stored flag |
| EmulationService.FreshInstallIsInactive | rf-access-app/app/src/main/java/com/example/rfaccess/MifareEmulationService.java:134-146 | a fresh installation loads the default card with the gate off, so it answers every frame 6F 00 |
| EmulationService.ReadExample | rf-access-app/app/src/main/java/com/example/rfaccess/MifareEmulationService.java:103-122 | with image 00 11 22, the READ 00 B0 00 00 03 is answered 00 11 22 90 00 |
| HexCodec.ByteToHex | rf-access-app/app/src/main/java/com/example/rfaccess/MifareEmulationService.java:197-203 | a byte becomes two upper-case digits whose value, high nibble first, is the byte |
| HexCodec.BytesToHex | rf-access-app/app/src/main/java/com/example/rfaccess/MifareEmulationService.java:197-203 | the output has 2·n upper-case hex digits, and pair i spells byte i |
| HexCodec.HexToBytes | rf-access-app/app/src/main/java/com/example/rfaccess/MifareEmulationService.java:205-213 | parsing even-length hex gives half as many bytes; byte i is digits 2i and 2i+1, high nibble first |
| HexCodec.HexRoundTrip | rf-access-app/app/src/main/java/com/example/rfaccess/MifareEmulationService.java:197-213 | hexToBytes(bytesToHex(b)) == b for every buffer |
| HexCodec.HexNormalizesCase | rf-access-app/app/src/main/java/com/example/rfaccess/MifareEmulationService.java:197-213 | bytesToHex(hexToBytes(s)) is s with its digits in upper case |
| Distributions.NewDistribution | rf-access-app/app/src/main/java/com/example/rfaccess/DistributionManager.java:34-41 | a new record is active, stamped now, carries the given recipient, payload and id, and its link is generated from those fields |
| DeepLinks.GenerateDeepLink | rf-access-app/app/src/main/java/com/example/rfaccess/DistributionManager.java:63-67 | the link is the fixed text plus the three values, unescaped, and it ends with the id |
| DeepLinks.LinkShape | rf-access-app/app/src/main/java/com/example/rfaccess/DistributionManager.java:63-67 | the link is "rfaccess://open" + "?" + the four parameters username, cardData, action=program, id |
| DeepLinks.GeneratedLinkParses | rf-access-app/app/src/main/java/com/example/rfaccess/DistributionManager.java:63-67 | reading username, cardData, action and id back out of a generated link gives the three fields and "program", when the values contain no & # % + |
| DeepLinks.Lookup | rf-access-app/app/src/main/java/com/example/rfaccess/LoginActivity.java:52-54 | a parameter is absent iff no piece has that name; otherwise it is the value of the first piece with that name |
| Distributions.ReissueWithNewLink | rf-access-app/app/src/main/java/com/example/rfaccess/DistributionManager.java:69-74 | the id, stamp and link change and the link matches the new id; recipient, payload and flag stay; a different id gives a different link |
| Distributions.LinkIdInjective | rf-access-app/app/src/main/java/com/example/rfaccess/DistributionManager.java:63-66 | for one recipient and payload, different ids give different links |
| Distributions.RemoveId | rf-access-app/app/src/main/java/com/example/rfaccess/DistributionManager.java:129 | keeps exactly the records without the id; a store without the id is unchanged |
| Distributions.Save | rf-access-app/app/src/main/java/com/example/rfaccess/DistributionManager.java:124-146 | the saved record is last and the only one with its id; the records before it are exactly the old ones with other ids; validity is kept |
| Distributions.SaveKeepsOthers | rf-access-app/app/src/main/java/com/example/rfaccess/DistributionManager.java:124-141 | records with other ids keep their values and order; saving the same record twice equals saving it once |
| Distributions.Create | rf-access-app/app/src/main/java/com/example/rfaccess/DistributionManager.java:82-87 | the new record, with a fresh id, is appended to the store, and a valid store stays valid |
| Distributions.ActiveOnly | rf-access-app/app/src/main/java/com/example/rfaccess/DistributionManager.java:89-106 | the active view holds exactly the active records of the store |
| Distributions.ActiveOnlyAppend | rf-access-app/app/src/main/java/com/example/rfaccess/DistributionManager.java:95-101 | the active view of a concatenation is the two views in order, so stored order is preserved |
| Distributions.ActiveCount | rf-access-app/app/src/main/java/com/example/rfaccess/DistributionManager.java:234-236 | the count equals the number of active records counted one by one; it is at most the store size, and 0 iff no record is active |
| Distributions.ActiveOnlyCount | rf-access-app/app/src/main/java/com/example/rfaccess/DistributionManager.java:234-236 | the size of the active view equals the one-by-one count of active records |
| Distributions.Delete | rf-access-app/app/src/main/java/com/example/rfaccess/DistributionManager.java:148-167 | returns true iff some record had the id; the store becomes the id-removal of the old one (order kept, see RemoveIdAppend), so every such record goes and nothing else; on false the store is untouched |
| Distributions.RemoveIdAppend | rf-access-app/app/src/main/java/com/example/rfaccess/DistributionManager.java:129 | removing an id from two stretches of the store is removing it from each, in order |
| Distributions.SubLong | rf-access-app/app/src/main/java/com/example/rfaccess/DistributionManager.java:172 | the cutoff is a 64-bit value, equal to now − age whenever that fits |
| Distributions.KeepSinceAppend | rf-access-app/app/src/main/java/com/example/rfaccess/DistributionManager.java:174-181 | filtering two stretches of the store by stamp gives the two filtered stretches in order, so kept records keep their relative order |
| Distributions.KeepSinceCount | rf-access-app/app/src/main/java/com/example/rfaccess/DistributionManager.java:174-181 | the records kept plus the records stamped before the cutoff are the whole store |
| Distributions.DeleteOld | rf-access-app/app/src/main/java/com/example/rfaccess/DistributionManager.java:169-196 | the kept store is the stamp filter of the old one, in stored order: exactly the records stamped at or after now − age; returns the number of older records removed |
| Distributions.UnboundedAgeDeletesNothing | rf-access-app/app/src/main/java/com/example/rfaccess/AdminActivity.java:196-212 | an age of Long.MAX_VALUE deletes nothing, which is why "All distributions" clears instead |
| Distributions.FindId | rf-access-app/app/src/main/java/com/example/rfaccess/DistributionManager.java:202-203 | finds the first record with the id, or none iff no record has it |
| Distributions.Reissue | rf-access-app/app/src/main/java/com/example/rfaccess/DistributionManager.java:198-222 | an unknown id gives null; a known one gives a new active record copied from the first record with that id (same recipient and payload, fresh id); the store becomes the others, then the old record deactivated, then the new one |
| Distributions.ReissueActiveView | rf-access-app/app/src/main/java/com/example/rfaccess/DistributionManager.java:198-222 | after a reissue, the active view contains the new record and no record with the old id |
| Distributions.FindActiveUser | rf-access-app/app/src/main/java/com/example/rfaccess/DistributionManager.java:224-232 | finds the first active record for the user, or none iff there is none |
| Distributions.FindByUsername | rf-access-app/app/src/main/java/com/example/rfaccess/DistributionManager.java:224-232 | returns the first active record with the username in stored order, or null iff there is none |
| Distributions.ClearAll | rf-access-app/app/src/main/java/com/example/rfaccess/DistributionManager.java:238-241 | afterwards there are no ids and the active count is 0, which is the 0 the admin screen reports after clearing |
| EmulationControl.MatchesHexPlusIff | rf-access-app/app/src/main/java/com/example/rfaccess/EmulationControlActivity.java:174 | the pattern [0-9A-Fa-f]+ matches exactly the non-empty strings of hex digits |
| EmulationControl.IsValidHex | rf-access-app/app/src/main/java/com/example/rfaccess/EmulationControlActivity.java:172-175 | an odd length is refused first, then the text must match [0-9A-Fa-f]+ (characterised by ValidHexIff) |
| EmulationControl.ValidHexIff | rf-access-app/app/src/main/java/com/example/rfaccess/EmulationControlActivity.java:172-175 | isValidHex holds iff the text is non-empty, of even length and all hex digits |
| EmulationControl.ValidHexIsHexString | rf-access-app/app/src/main/java/com/example/rfaccess/EmulationControlActivity.java:172-175 | what isValidHex accepts is exactly the non-empty input hexToBytes can parse |
| EmulationControl.UpdateLocalEmulation | rf-access-app/app/src/main/java/com/example/rfaccess/EmulationControlActivity.java:67-87 | an empty or non-hex trimmed input writes nothing; otherwise updateEmulationData is called with it and the toggle; a well-formed store stays well formed |
| EmulationControl.LocalUpdateLoads | rf-access-app/app/src/main/java/com/example/rfaccess/EmulationControlActivity.java:77-83 | after an accepted update, the service loads the parsed bytes behind the toggle's gate; rendering them gives the input in upper case |
| EmulationControl.SendRemoteEmulation | rf-access-app/app/src/main/java/com/example/rfaccess/EmulationControlActivity.java:89-140 | checks, in order: target empty, card data empty, card data not hex; otherwise sends type emulation_control with username, cardData, activate and now to /topics/user_<target> |
| EmulationControl.RemoteCommandWellFormed | rf-access-app/app/src/main/java/com/example/rfaccess/EmulationControlActivity.java:94-140 | a command is sent iff the target is non-empty and the card data is non-empty parseable hex; its topic names its user |
| Text.Trim | rf-access-app/app/src/main/java/com/example/rfaccess/LoginActivity.java:114 | the result is the input without leading and trailing characters ≤ U+0020 |
| Text.ToLower | rf-access-app/app/src/main/java/com/example/rfaccess/LoginActivity.java:139 | every character is lower-cased position by position |
| Login.ApplyLink | rf-access-app/app/src/main/java/com/example/rfaccess/LoginActivity.java:56-71 | a non-empty username only prefills; a non-empty cardData is stored pending with the link's action or "program"; otherwise nothing is written |
| Login.HandleDeepLink | rf-access-app/app/src/main/java/com/example/rfaccess/LoginActivity.java:44-76 | an intent without data changes nothing; only the pending card data and action keys are ever written |
| Login.GeneratedLinkDelivers | rf-access-app/app/src/main/java/com/example/rfaccess/LoginActivity.java:52-67 | for a non-empty username and card data, all three values free of & # % +, opening a generated link stores its card data with action "program" and prefills its username |
| Login.UserLogin | rf-access-app/app/src/main/java/com/example/rfaccess/LoginActivity.java:113-127 | accepts iff the trimmed name is ≥ 3 UTF-16 code units long, then stores it with logged-in true and admin false, nothing else |
| Login.UserLoginCountsUtf16Units | rf-access-app/app/src/main/java/com/example/rfaccess/LoginActivity.java:114-116 | for a name with no surrounding spaces: three or more characters pass; two characters pass when the second lies beyond U+FFFF (as "a😀", three UTF-16 units, does in the app), and fail when both lie within U+FFFF |
| Text.Utf16Length | rf-access-app/app/src/main/java/com/example/rfaccess/LoginActivity.java:116 | String.length(): between the character count and twice it, and equal to it iff no character lies beyond U+FFFF |
| Login.AdminLogin | rf-access-app/app/src/main/java/com/example/rfaccess/LoginActivity.java:138-152 | accepts iff the trimmed, lower-cased name is admin or administrator, then stores it with logged-in and admin true |
| Login.AdminLoginIgnoresCase | rf-access-app/app/src/main/java/com/example/rfaccess/LoginActivity.java:139-165 | the admin button accepts exactly admin/administrator in any letter case, and stores one of the two lower-case names |
| Login.StartScreen | rf-access-app/app/src/main/java/com/example/rfaccess/LoginActivity.java:78-95 | checkExistingLogin: not logged in (or unset) leads to the login screen; logged in leads to the admin screen if the admin flag is set, else to the main screen |
| Login.LoginIsRemembered | rf-access-app/app/src/main/java/com/example/rfaccess/LoginActivity.java:78-95 | a fresh install starts at login; after a user or admin login the next start opens that screen; a link does not change the route |
| AdminPortal.FindToken | rf-access-app/admin-portal/app.py:184 | finds the first row with the token, or none iff no row has it |
| AdminPortal.FindUnique | rf-access-app/admin-portal/app.py:51 | with the unique token column, the row holding a token is the one found |
| AdminPortal.Distribute | rf-access-app/admin-portal/app.py:152-176 | appends one pending, not-completed row for the fresh token, distributed now and expiring now + 24 h; tokens stay unique |
| AdminPortal.GetProgramData | rf-access-app/admin-portal/app.py:182-203 | an unknown token gives 404; data is served iff the token is pending, not past expiry, and its program exists, and then it is that program's sector data |
| AdminPortal.MarkComplete | rf-access-app/admin-portal/app.py:205-216 | an unknown token gives 404 and changes nothing; otherwise exactly that row becomes completed at now, whatever its status or expiry |
| AdminPortal.MarkCompleteKeepsUnique | rf-access-app/admin-portal/app.py:51 | marking keeps tokens unique |
| AdminPortal.ReplyFollowsState | rf-access-app/admin-portal/app.py:184-197 | the reply is 404 iff the token is unknown, "already used" iff used, "expired" iff past expiry; a live token gets data or "Program not found" |
| AdminPortal.FreshTokenLifetime | rf-access-app/admin-portal/app.py:157-193 | a newly distributed token is live until now + 24 h inclusive and expired afterwards; while live it serves its program's data |
| AdminPortal.RedeemableAtExpiry | rf-access-app/admin-portal/app.py:192 | a pending token is served at exactly its expiry instant and refused as expired one microsecond later |
| AdminPortal.UsedTokenNeverRedeems | rf-access-app/admin-portal/app.py:189-190 | once marked used, a token is refused as "already used" at every time |
| AdminPortal.MarkCompleteIdempotent | rf-access-app/admin-portal/app.py:207-216 | marking twice equals marking once at the second time |
| AdminPortal.OtherTokensUnaffected | rf-access-app/admin-portal/app.py:155-166 | handing out a fresh token leaves the reply for every other token unchanged |
| AdminPortal.MarkingLeavesOthers | rf-access-app/admin-portal/app.py:205-216 | marking a token used, known or not, leaves the reply to `/api/program/<t>` unchanged for every other token `t` |
| AdminPortal.FindTokenSame | rf-access-app/admin-portal/app.py:184 | the `filter_by(token=…).first()` lookup depends only on the token column: rows that agree on it give the same answer |
| AdminPortal.AddUser | rf-access-app/admin-portal/app.py:93-108 | given an id not already in the user table, a taken username gives 400 and stores nothing; otherwise the active user is appended and its id returned; usernames and ids stay unique |
| AdminPortal.AddUserTwice | rf-access-app/admin-portal/app.py:101-102 | adding the same name a second time, with a second fresh id, is refused with 400 and changes nothing |
| Text.JsSplit | web-programmer-redirect.js:9 | the pieces joined with the separator give the input back, and no piece contains the separator |
| Text.JsSplitCutsLeftmost | web-programmer-redirect.js:9 | every cut is at the leftmost occurrence: each piece but the last, followed by the separator, first contains the separator right after the piece |
| WebRedirect.SplitHasTwoPieces | web-programmer-redirect.js:9-14 | split yields a second piece iff "/program/" occurs |
| WebRedirect.ExtractToken | web-programmer-redirect.js:8-16 | no token iff the URL has no "/program/"; the token is split piece 1 and contains no "/program/" |
| WebRedirect.TokenIsNextSegment | web-programmer-redirect.js:9-16 | the token is the text after the first "/program/", up to the next one or the end |
| WebRedirect.AppUrl | web-programmer-redirect.js:24 | the app link is rfaccess://open with the query username=user_from_web, cardData=token, action=program |
| WebRedirect.IntentUrl | web-programmer-redirect.js:45 | the intent link is intent://open with the same query, followed by the intent fragment |
| WebRedirect.RedirectToApp | web-programmer-redirect.js:6-53 | no token gives nothing; a desktop shows instructions carrying the page's own address; a phone gets the app link, the store page and the intent link built from the token |
| WebRedirect.IntentCarriesSameQuery | web-programmer-redirect.js:24-45 | both links give the app the same query, whatever the token contains |
| WebRedirect.AppLinkParses | web-programmer-redirect.js:24 | for a token free of & # % +, the app link reads back as username user_from_web, cardData = token, action program, and has no id |
| WebRedirect.AppLinkDeliversToken | web-programmer-redirect.js:24 | for a non-empty token free of & # % +, opening the app link on the login screen stores the token as pending card data with action "program" |
| WebRedirect.EncodeUriComponent | web-programmer-redirect.js:45 | the encoded text consists only of unreserved characters and '%' escapes |
| WebRedirect.UriRoundTrip | web-programmer-redirect.js:45 | decoding the encoding of ASCII text gives the text back |
| WebRedirect.EncodedFallback | web-programmer-redirect.js:25-45 | the fallback embedded in the intent is https%3A%2F%2Fplay.google.com%2Fstore%2Fapps%2Fdetails%3Fid%3Dcom.example.rfaccess |
| WebRedirect.EncodedHasNoSeparators | web-programmer-redirect.js:45 | encoded text never contains ; # & = ? / or :, so the fallback cannot break the intent fragment's fields |

## Left out

- Persistence: SharedPreferences, the JSON form of the distribution store, asynchronous `apply()`, and partial reads of a corrupt store. The store is an in-memory sequence. `getAllDistributions` is the identity on it.
- deleteOldDistributions does not compile as written: its lambda increments a captured local (`DistributionManager.java:174-181`). `Distributions.DeleteOld` models the intended count of removed records.
- `getFormattedTimestamp`: locale-dependent date formatting.
- UUID generation, `System.currentTimeMillis`, `secrets.token_urlsafe`, and SQLite row ids. These are parameters. Freshness is a precondition: `Distributions.Reissue` needs a fresh id, `AdminPortal.Distribute` a fresh token, and `AdminPortal.AddUser` a user id not already in the table.
- HexCodec.HexToBytes: requires even-length hex digits. On other input the Java code throws (odd length) or mixes in `Character.digit == -1`. Every path that stores hex first passes `isValidHex` (`EmulationControl.LocalUpdateLoads`).
- EmulationService.LoadEmulationData: requires the stored hex to be well formed, for the same reason.
- The service reads the preferences only in `onCreate`. The model therefore loads state once and keeps it for a whole session (`EmulationService.RunKeepsState`).
- Notifications, logging, toasts and every Android view. This includes the status-text colours of the emulation control screen.
- The remote command is modelled only up to the message it would send. The Volley request, its headers, and the JSON serialisation of the payload are not modelled.
- The Firebase messaging service is not part of this model. It ignores `type="emulation_control"`. It writes `pending_card_data`, while the rest of the app reads `pendingCardData`.
- Android's `Uri.getQueryParameter` is not visible. `DeepLinks.QueryParameter` is a plain `&`/`=` splitter with no percent or plus decoding.
- DeepLinks.GeneratedLinkParses: requires values free of `& # % +`, because the link generator escapes nothing. A username such as `x&cardData=EVIL` adds a second `cardData` piece, and the first piece wins (`DeepLinks.Lookup`).
- Login.GeneratedLinkDelivers: requires non-empty username and card data free of `& # % +`, for the same reason. Empty values are not stored or prefilled (`Login.ApplyLink`).
- WebRedirect.AppLinkParses: requires a token free of `& # % +`. A token taken from the page address with `#frag` or `%20` in it does not read back as itself.
- WebRedirect.AppLinkDeliversToken: requires a non-empty token free of `& # % +`, for the same reason.
- Text.ToLower: folds ASCII letters only. Java's `toLowerCase` is locale-sensitive and covers all of Unicode.
- WebRedirect.UriRoundTrip: covers ASCII text only. `WebRedirect.DecodeUriComponent` undoes single-byte escapes, not multi-byte UTF-8 sequences.
- The web page's user-agent test, DOM, iframe, timers and `confirm` dialog. Whether the browser is mobile is a parameter.
- The page registers `redirectToApp` for `DOMContentLoaded` twice while it is loading (`web-programmer-redirect.js:78` and `:81-82`), so the redirect runs twice. The model describes one run.
- Flask routing, sessions and the 401 answers, login, and password hashing for the admin portal. Also the Firebase notification sent after distributing.
- The program pages of the admin portal: listing, creating, and JSON validation of `sector_data`. The sector data is served as the stored text; `json.loads` is not modelled.
- Concurrency: HostApduService threading, and simultaneous requests to the portal.
- The other Android screens (AdminActivity, MainActivity, ProgrammingActivity). One quirk is only noted here: the admin screen reports `getActiveDistributionCount()` right after clearing, so it always reports 0 (`Distributions.ClearAll`).

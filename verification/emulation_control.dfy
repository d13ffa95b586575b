/**
 * The emulation control screen: the guards in front of the local store and of the remote
 * command. Both read the text fields trimmed; the local path writes through
 * updateEmulationData, the remote path builds a push message for the target user's topic.
 */
module EmulationControl {
  import opened Common
  import opened Text
  import HexCodec
  import opened Preferences
  import EmulationService

  /** One character of the regular-expression class [0-9A-Fa-f]. */
  predicate InHexClass(c: char) {
    ('0' <= c <= '9') || ('A' <= c <= 'F') || ('a' <= c <= 'f')
  }

  /** String.matches("[0-9A-Fa-f]+"): one class character, then the rest matching the same pattern or nothing. */
  predicate MatchesHexPlus(s: string) {
    |s| >= 1 && InHexClass(s[0]) && (|s| == 1 || MatchesHexPlus(s[1..]))
  }

  /** isValidHex: an even length first, then the pattern. */
  predicate IsValidHex(hex: string) {
    |hex| % 2 == 0 && MatchesHexPlus(hex)
  }

  /** The pattern matches exactly the non-empty strings of hex digits. */
  lemma {:induction false} MatchesHexPlusIff(s: string)
    ensures MatchesHexPlus(s) <==> |s| > 0 && forall i :: 0 <= i < |s| ==> HexCodec.IsHexDigit(s[i])
  {
    if |s| > 1 {
      MatchesHexPlusIff(s[1..]);
      assert forall i :: 1 <= i < |s| ==> s[i] == s[1..][i - 1];
    }
  }

  /** isValidHex holds iff the text is non-empty, of even length and all hex digits. */
  lemma ValidHexIff(s: string)
    ensures IsValidHex(s) <==> |s| > 0 && |s| % 2 == 0 && forall i :: 0 <= i < |s| ==> HexCodec.IsHexDigit(s[i])
  {
    MatchesHexPlusIff(s);
  }

  /** What isValidHex lets through is exactly the non-empty part of what hexToBytes can parse. */
  lemma ValidHexIsHexString(s: string)
    ensures IsValidHex(s) <==> |s| > 0 && HexCodec.IsHexString(s)
  {
    ValidHexIff(s);
  }

  datatype LocalOutcome = EmptyInput | InvalidHex | LocalUpdated

  /**
   * updateLocalEmulation: the trimmed card text must be non-empty and valid hex before it
   * is written with the toggle's state; a rejected input writes nothing.
   */
  function UpdateLocalEmulation(prefs: Prefs, input: string, toggle: bool): (r: (LocalOutcome, Prefs))
    ensures var cardData := Trim(input);
            && (r.0 == EmptyInput <==> cardData == "")
            && (r.0 == InvalidHex <==> cardData != "" && !IsValidHex(cardData))
            && (r.0 != LocalUpdated ==> r.1 == prefs)
            && (r.0 == LocalUpdated ==> r.1 == EmulationService.UpdateEmulationData(prefs, cardData, toggle))
    ensures EmulationService.StoredDataWellFormed(prefs) ==> EmulationService.StoredDataWellFormed(r.1)
  {
    var cardData := Trim(input);
    if cardData == "" then (EmptyInput, prefs)
    else if !IsValidHex(cardData) then (InvalidHex, prefs)
    else
      ValidHexIsHexString(cardData);
      (LocalUpdated, EmulationService.UpdateEmulationData(prefs, cardData, toggle))
  }

  /**
   * Whatever the screen stores can be loaded by the service: after an accepted update the
   * service is active iff the toggle was on, its image is the parsed text, and rendering
   * that image back gives the text in upper case.
   */
  lemma LocalUpdateLoads(prefs: Prefs, input: string, toggle: bool)
    requires UpdateLocalEmulation(prefs, input, toggle).0 == LocalUpdated
    ensures var p := UpdateLocalEmulation(prefs, input, toggle).1;
            && EmulationService.StoredDataWellFormed(p)
            && EmulationService.LoadEmulationData(p).active == toggle
            && EmulationService.LoadEmulationData(p).cardData == Some(HexCodec.HexToBytes(Trim(input)))
            && HexCodec.BytesToHex(EmulationService.LoadEmulationData(p).cardData.value) == HexCodec.ToUpperHex(Trim(input))
            && |EmulationService.LoadEmulationData(p).cardData.value| * 2 == |Trim(input)|
  {
    ValidHexIsHexString(Trim(input));
    HexCodec.HexNormalizesCase(Trim(input));
  }

  /** The JSON payload of a remote emulation command. */
  datatype EmulationCommand = EmulationCommand(
    kind: string,
    username: string,
    cardData: string,
    activate: bool,
    timestamp: int)

  /** The push message: its data type, its payload and the topic it is sent to. */
  datatype PushMessage = PushMessage(to: string, dataType: string, payload: EmulationCommand)

  const COMMAND_TYPE := "emulation_control"
  const TOPIC_PREFIX := "/topics/user_"

  datatype RemoteOutcome = MissingUsername | MissingCardData | InvalidCardData | Sent(message: PushMessage)

  /**
   * sendRemoteEmulation: target, then card data emptiness, then the hex check, in that
   * order; only then is a command built, stamped with `now`.
   */
  function SendRemoteEmulation(targetInput: string, cardInput: string, toggle: bool, now: int): (r: RemoteOutcome)
    ensures var target, cardData := Trim(targetInput), Trim(cardInput);
            && (r == MissingUsername <==> target == "")
            && (r == MissingCardData <==> target != "" && cardData == "")
            && (r == InvalidCardData <==> target != "" && cardData != "" && !IsValidHex(cardData))
            && (r.Sent? ==> r.message == PushMessage(TOPIC_PREFIX + target, COMMAND_TYPE,
                                                     EmulationCommand(COMMAND_TYPE, target, cardData, toggle, now)))
  {
    var target := Trim(targetInput);
    var cardData := Trim(cardInput);
    if target == "" then MissingUsername
    else if cardData == "" then MissingCardData
    else if !IsValidHex(cardData) then InvalidCardData
    else
      var command := EmulationCommand(COMMAND_TYPE, target, cardData, toggle, now);
      Sent(PushMessage(TOPIC_PREFIX + command.username, COMMAND_TYPE, command))
  }

  /**
   * A command goes out exactly when both fields are filled and the card text is valid hex;
   * it then carries hex the service could parse, and its topic names the user it addresses.
   */
  lemma RemoteCommandWellFormed(targetInput: string, cardInput: string, toggle: bool, now: int)
    ensures var r := SendRemoteEmulation(targetInput, cardInput, toggle, now);
            && (r.Sent? <==> Trim(targetInput) != "" && |Trim(cardInput)| > 0 && HexCodec.IsHexString(Trim(cardInput)))
            && (r.Sent? ==> && HexCodec.IsHexString(r.message.payload.cardData)
                            && r.message.payload.kind == r.message.dataType == COMMAND_TYPE
                            && r.message.to[..|TOPIC_PREFIX|] == TOPIC_PREFIX
                            && r.message.to[|TOPIC_PREFIX|..] == r.message.payload.username != "")
  {
    ValidHexIsHexString(Trim(cardInput));
    var r := SendRemoteEmulation(targetInput, cardInput, toggle, now);
    if r.Sent? {
      assert r.message.to == TOPIC_PREFIX + Trim(targetInput);
    }
  }
}

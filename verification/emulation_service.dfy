/**
 * MifareEmulationService: the host card-emulation callback. Reader frames (APDUs) are
 * answered from an in-memory card image behind an on/off gate; the image and the gate
 * are loaded from the shared preferences when the service is created.
 */
module EmulationService {
  import opened Common
  import HexCodec
  import opened Preferences

  // Command headers (ISO/IEC 7816-4: SELECT 7.1.1, READ BINARY 7.2.3, UPDATE BINARY 7.2.5).
  const SELECT_APDU: seq<byte> := [0x00, 0xA4, 0x04, 0x00]
  const READ_BINARY: seq<byte> := [0x00, 0xB0]
  const UPDATE_BINARY: seq<byte> := [0x00, 0xD6]

  // Status words (ISO/IEC 7816-4 section 5.1.3).
  const SUCCESS_RESPONSE: seq<byte> := [0x90, 0x00]
  const ERROR_RESPONSE: seq<byte> := [0x6F, 0x00]
  const NOT_FOUND_RESPONSE: seq<byte> := [0x6A, 0x82]

  /** Bytes returned by a READ whose frame carries no length byte: one MIFARE block. */
  const DEFAULT_READ_LENGTH: nat := 16

  /** Size of the default image: a MIFARE Classic 1K card. */
  const DEFAULT_CARD_SIZE: nat := 1024

  /** The service's two fields: the gate and the image (null before it is loaded). */
  datatype EmulationState = EmulationState(active: bool, cardData: Option<seq<byte>>)

  predicate IsSelectCommand(apdu: seq<byte>) {
    |apdu| >= 4 && apdu[0] == SELECT_APDU[0] && apdu[1] == SELECT_APDU[1]
    && apdu[2] == SELECT_APDU[2] && apdu[3] == SELECT_APDU[3]
  }

  predicate IsReadCommand(apdu: seq<byte>) {
    |apdu| >= 2 && apdu[0] == READ_BINARY[0] && apdu[1] == READ_BINARY[1]
  }

  predicate IsUpdateCommand(apdu: seq<byte>) {
    |apdu| >= 2 && apdu[0] == UPDATE_BINARY[0] && apdu[1] == UPDATE_BINARY[1]
  }

  datatype Command = Select | Read | Update | Unrecognized

  /** The dispatcher's classification: SELECT, then READ, then UPDATE, first match wins. */
  function Classify(apdu: seq<byte>): (c: Command)
    ensures c == Select <==> |apdu| >= 4 && apdu[..4] == SELECT_APDU
    ensures c == Read <==> |apdu| >= 2 && apdu[..2] == READ_BINARY
    ensures c == Update <==> |apdu| >= 2 && apdu[..2] == UPDATE_BINARY
    ensures c == Unrecognized <==> |apdu| < 2 || (apdu[..2] != READ_BINARY && apdu[..2] != UPDATE_BINARY
                                                && (|apdu| < 4 || apdu[..4] != SELECT_APDU))
  {
    assert |apdu| >= 4 ==> (apdu[..4] == SELECT_APDU <==> IsSelectCommand(apdu));
    assert |apdu| >= 2 ==> (apdu[..2] == READ_BINARY <==> IsReadCommand(apdu));
    assert |apdu| >= 2 ==> (apdu[..2] == UPDATE_BINARY <==> IsUpdateCommand(apdu));
    if IsSelectCommand(apdu) then Select
    else if IsReadCommand(apdu) then Read
    else if IsUpdateCommand(apdu) then Update
    else Unrecognized
  }

  /** P1-P2 of a READ as one big-endian 16-bit offset, 0 when the frame stops short of them. */
  function ReadOffset(apdu: seq<byte>): (offset: nat)
    ensures offset < 0x1_0000
    ensures |apdu| < 4 ==> offset == 0
    ensures |apdu| >= 4 ==> offset / 256 == apdu[2] as int && offset % 256 == apdu[3] as int
  {
    if |apdu| >= 4 then apdu[2] as int * 256 + apdu[3] as int else 0
  }

  /** The Le byte of a READ, read as 0..255 (0 means zero bytes here), 16 when absent. */
  function ReadLength(apdu: seq<byte>): (length: nat)
    ensures length <= 255
    ensures |apdu| < 5 ==> length == DEFAULT_READ_LENGTH
    ensures |apdu| >= 5 ==> length == apdu[4] as int
  {
    if |apdu| >= 5 then apdu[4] as int else DEFAULT_READ_LENGTH
  }

  /**
   * The READ answer for an image: a zero-filled buffer of `length + 2` bytes, the bytes of
   * the image from `offset` copied to its front as far as the image reaches, then 90 00.
   */
  function ReadResponse(cardData: seq<byte>, offset: nat, length: nat): (r: seq<byte>)
    ensures |r| == length + 2
    ensures r[length..] == SUCCESS_RESPONSE
    ensures forall i :: 0 <= i < length && offset + i < |cardData| ==> r[i] == cardData[offset + i]
    ensures forall i :: 0 <= i < length && offset + i >= |cardData| ==> r[i] == 0
  {
    if offset < |cardData| then
      var copyLength := Min(length, |cardData| - offset);
      cardData[offset..offset + copyLength] + Zeros(length - copyLength) + SUCCESS_RESPONSE
    else
      Zeros(length) + SUCCESS_RESPONSE
  }

  /** handleReadCommand: 6A 82 when no image is loaded. */
  function HandleReadCommand(cardData: Option<seq<byte>>, apdu: seq<byte>): (r: seq<byte>)
    ensures cardData.None? ==> r == NOT_FOUND_RESPONSE
    ensures cardData.Some? ==> r == ReadResponse(cardData.value, ReadOffset(apdu), ReadLength(apdu))
  {
    match cardData
    case None => NOT_FOUND_RESPONSE
    case Some(data) => ReadResponse(data, ReadOffset(apdu), ReadLength(apdu))
  }

  /** handleUpdateCommand: the emulated card is read-only. */
  function HandleUpdateCommand(apdu: seq<byte>): (r: seq<byte>)
    ensures r == ERROR_RESPONSE
  {
    ERROR_RESPONSE
  }

  /** processCommandApdu: the answer to one frame. */
  function ProcessCommandApdu(state: EmulationState, apdu: seq<byte>): (r: seq<byte>)
    ensures !state.active ==> r == ERROR_RESPONSE
    ensures state.active && Classify(apdu) == Select ==> r == SUCCESS_RESPONSE
    ensures state.active && Classify(apdu) == Read ==> r == HandleReadCommand(state.cardData, apdu)
    ensures state.active && Classify(apdu) in {Update, Unrecognized} ==> r == ERROR_RESPONSE
  {
    if !state.active then ERROR_RESPONSE
    else
      match Classify(apdu)
      case Select => SUCCESS_RESPONSE
      case Read => HandleReadCommand(state.cardData, apdu)
      case Update => HandleUpdateCommand(apdu)
      case Unrecognized => ERROR_RESPONSE
  }

  /**
   * One callback as a state transition: the answer and the service's fields afterwards.
   * Nothing in the callback assigns either field, so the state half is the input by
   * construction; the content of a session is its answers.
   */
  function Step(state: EmulationState, apdu: seq<byte>): (r: (EmulationState, seq<byte>)) {
    (state, ProcessCommandApdu(state, apdu))
  }

  /** A session: the frames of one or more taps, answered in order. */
  function Run(state: EmulationState, frames: seq<seq<byte>>): (EmulationState, seq<seq<byte>>)
    decreases |frames|
  {
    if |frames| == 0 then (state, [])
    else
      var (next, response) := Step(state, frames[0]);
      var (final, rest) := Run(next, frames[1..]);
      (final, [response] + rest)
  }

  /**
   * A session's answers are the single-frame answers, one per frame, in order. That no frame
   * (UPDATE BINARY included) changes the gate or the image holds by construction of Step.
   */
  lemma {:induction false} RunKeepsState(state: EmulationState, frames: seq<seq<byte>>)
    ensures Run(state, frames).0 == state
    ensures |Run(state, frames).1| == |frames|
    ensures forall k :: 0 <= k < |frames| ==> Run(state, frames).1[k] == ProcessCommandApdu(state, frames[k])
    decreases |frames|
  {
    if |frames| > 0 {
      RunKeepsState(state, frames[1..]);
      var rest := Run(state, frames[1..]).1;
      assert Run(state, frames).1 == [ProcessCommandApdu(state, frames[0])] + rest;
      assert forall k :: 1 <= k < |frames| ==> frames[k] == frames[1..][k - 1];
    }
  }

  /** With the gate off, every frame, however short or well formed, is answered 6F 00. */
  lemma InactiveRejectsEverything(cardData: Option<seq<byte>>, apdu: seq<byte>)
    ensures ProcessCommandApdu(EmulationState(false, cardData), apdu) == ERROR_RESPONSE
  {
  }

  /** Frames shorter than two bytes match no header. */
  lemma ShortFrameRejected(state: EmulationState, apdu: seq<byte>)
    requires |apdu| < 2
    ensures ProcessCommandApdu(state, apdu) == ERROR_RESPONSE
  {
  }

  /**
   * A READ on a loaded image: length + 2 bytes ending in 90 00, where data byte i is image
   * byte offset + i while the image lasts and 0 after it.
   */
  lemma ReadAnswer(data: seq<byte>, apdu: seq<byte>)
    requires |apdu| >= 2 && apdu[0] == 0x00 && apdu[1] == 0xB0
    ensures var r := ProcessCommandApdu(EmulationState(true, Some(data)), apdu);
            var offset, length := ReadOffset(apdu), ReadLength(apdu);
            && |r| == length + 2
            && r[length] == 0x90 && r[length + 1] == 0x00
            && (forall i :: 0 <= i < length ==>
                  r[i] == if offset + i < |data| then data[offset + i] else 0)
  {
    assert apdu[..2] == READ_BINARY;
    var r := ProcessCommandApdu(EmulationState(true, Some(data)), apdu);
    var length := ReadLength(apdu);
    assert r[length..] == SUCCESS_RESPONSE;
    assert r[length] == r[length..][0] && r[length + 1] == r[length..][1];
  }

  /** A READ with no image answers 6A 82, whatever the frame carries after the header. */
  lemma ReadWithoutImage(apdu: seq<byte>)
    requires |apdu| >= 2 && apdu[0] == 0x00 && apdu[1] == 0xB0
    ensures ProcessCommandApdu(EmulationState(true, None), apdu) == NOT_FOUND_RESPONSE
  {
    assert apdu[..2] == READ_BINARY;
  }

  /** Every answer is one of the three status words or READ data followed by 90 00: the dispatcher never fails. */
  lemma AnswerAlwaysEndsInStatus(state: EmulationState, apdu: seq<byte>)
    ensures var r := ProcessCommandApdu(state, apdu);
            && |r| >= 2
            && (r[|r| - 2..] == SUCCESS_RESPONSE || r == ERROR_RESPONSE || r == NOT_FOUND_RESPONSE)
  {
  }

  /** The identifier written into block 1, one ASCII byte per character. */
  const RF_ACCESS_ID := "RF ACCESS CARD"

  /** createDefaultCardData: a 1K image with a UID and BCC in block 0 and the identifier in block 1. */
  function DefaultCardData(): (d: seq<byte>)
    ensures |d| == DEFAULT_CARD_SIZE
    ensures d[..5] == [0x12, 0x34, 0x56, 0x78, 0x9A]
    ensures |RF_ACCESS_ID| == 14
    ensures forall i :: 0 <= i < 14 ==> d[16 + i] == RF_ACCESS_ID[i] as int
    ensures forall i :: 5 <= i < 16 ==> d[i] == 0
    ensures forall i :: 30 <= i < DEFAULT_CARD_SIZE ==> d[i] == 0
  {
    var uid: seq<byte> := [0x12, 0x34, 0x56, 0x78, 0x9A];
    var id := RF_ACCESS_ID;
    assert |id| == 14 && forall i :: 0 <= i < 14 ==> id[i] as int < 128;
    var d: seq<byte> := seq(DEFAULT_CARD_SIZE, i requires 0 <= i < DEFAULT_CARD_SIZE =>
      if i < 5 then uid[i] else if 16 <= i < 30 then id[i - 16] as int else 0);
    assert d[..5] == uid;
    d
  }

  /** The stored image, if any, is something hexToBytes can parse. */
  predicate StoredDataWellFormed(prefs: Prefs) {
    prefs.emulationData.Some? ==> HexCodec.IsHexString(prefs.emulationData.value)
  }

  /** loadEmulationData: the gate defaults to off, the image to the default card. */
  function LoadEmulationData(prefs: Prefs): (state: EmulationState)
    requires StoredDataWellFormed(prefs)
    ensures state.active <==> prefs.emulationActive == Some(true)
    ensures state.cardData.Some?
    ensures prefs.emulationData.None? ==> state.cardData.value == DefaultCardData()
    ensures prefs.emulationData.Some? ==>
              && 2 * |state.cardData.value| == |prefs.emulationData.value|
              && state.cardData.value == HexCodec.HexToBytes(prefs.emulationData.value)
  {
    var active := prefs.emulationActive.GetOr(false);
    match prefs.emulationData
    case Some(hex) => EmulationState(active, Some(HexCodec.HexToBytes(hex)))
    case None => EmulationState(active, Some(DefaultCardData()))
  }

  /** updateEmulationData: writes the two emulation keys and no other. */
  function UpdateEmulationData(prefs: Prefs, hexData: string, activate: bool): (r: Prefs)
    ensures r.emulationData == Some(hexData) && r.emulationActive == Some(activate)
    ensures r.(emulationData := prefs.emulationData, emulationActive := prefs.emulationActive) == prefs
  {
    prefs.(emulationData := Some(hexData), emulationActive := Some(activate))
  }

  /** A service created after an update serves exactly the bytes that were written, behind the gate that was written. */
  lemma LoadAfterUpdate(prefs: Prefs, bytes: seq<byte>, activate: bool)
    ensures var p := UpdateEmulationData(prefs, HexCodec.BytesToHex(bytes), activate);
            && StoredDataWellFormed(p)
            && LoadEmulationData(p) == EmulationState(activate, Some(bytes))
  {
    HexCodec.HexRoundTrip(bytes);
  }

  /** A fresh installation emulates the default card with the gate off, so it answers every frame 6F 00. */
  lemma FreshInstallIsInactive(apdu: seq<byte>)
    ensures LoadEmulationData(Empty) == EmulationState(false, Some(DefaultCardData()))
    ensures ProcessCommandApdu(LoadEmulationData(Empty), apdu) == ERROR_RESPONSE
  {
  }

  /** The worked example: image 00 11 22, READ offset 0 length 3 answers 00 11 22 90 00. */
  lemma ReadExample()
    ensures var state := LoadEmulationData(UpdateEmulationData(Empty, "001122", true));
            ProcessCommandApdu(state, [0x00, 0xB0, 0x00, 0x00, 0x03]) == [0x00, 0x11, 0x22, 0x90, 0x00]
  {
    var hex := "001122";
    assert HexCodec.IsHexString(hex);
    var data := HexCodec.HexToBytes(hex);
    assert data == [0x00, 0x11, 0x22];
    var apdu: seq<byte> := [0x00, 0xB0, 0x00, 0x00, 0x03];
    assert apdu[..2] == READ_BINARY;
    assert ReadOffset(apdu) == 0 && ReadLength(apdu) == 3;
    assert ReadResponse(data, 0, 3) == data[0..3] + Zeros(0) + SUCCESS_RESPONSE;
  }
}

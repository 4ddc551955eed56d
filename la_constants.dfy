/** Memory locations and limits of the Link's Awakening DX randomizer ROM that
    the emulator client reads and writes (`LAClientConstants`). */
module LAConstants {
  import opened Common

  /** Connector version. */
  const VERSION: int := 0x01

  /** Four bytes identifying the generated ROM. */
  const ROMGameID: int := 0x0051
  const SlotName: int := 0x0134

  /** Read only: the game is running normally when this is in the gameplay range. */
  const wGameplayType: int := 0xDB95
  /** Read only: counts the items received from the server and processed. */
  const wLinkSyncSequenceNumber: int := 0xDDF6
  /** Bit 0 set: the item-give slots hold data the ROM has not consumed yet. */
  const wLinkStatusBits: int := 0xDDF7
  const wLinkHealth: int := 0xDB5A
  const wLinkGiveItem: int := 0xDDF8
  const wLinkGiveItemFrom: int := 0xDDF9

  /** Two bytes, big-endian: the index of the next item the ROM expects. */
  const wRecvIndex: int := 0xDDFD
  const wCheckAddress: int := 0xC0FF - 0x4
  const WRamCheckSize: int := 0x4
  /** What the four bytes at `wCheckAddress` hold while the game is intact. */
  const WRamSafetyValue: seq<byte> := [0, 0, 0, 0]

  const wRamStart: int := 0xC000
  const hRamStart: int := 0xFF80
  const hRamSize: int := 0x80

  const MinGameplayValue: int := 0x06
  const MaxGameplayValue: int := 0x1A
  const VictoryGameplayAndSub: int := 0x0102
}

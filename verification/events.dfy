/**
 The observable side effects of the firmware, as events of a trace. The calls
 into the NeoPixel driver, the keyboard driver, the delay service and the
 watchdog are not modelled beyond the event they stand for.
 */
module Events {
  import opened Types

  /** The keys the reboot macro uses. */
  datatype Key = LeftCtrl | LeftAlt | Delete

  /** One RGB triple as shifted out to a pixel. */
  datatype Colour = Colour(r: uint8, g: uint8, b: uint8)

  datatype Event =
    | WriteColor(colour: Colour)  // NEO_writeColor
    | Latch                       // NEO_latch
    | InterruptsOff               // EA = 0
    | InterruptsOn                // EA = 1
    | Press(key: Key)             // KBD_press
    | Release(key: Key)           // KBD_release
    | Delay(ms: nat)              // DLY_ms
    | WatchdogReset               // WDT_reset
  {
    /** A keyboard event: a key going down or up. */
    predicate IsKey() {
      Press? || Release?
    }
  }
}

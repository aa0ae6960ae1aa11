/** The `ANSIEscapes` constants: Select Graphic Rendition control sequences in
    the sense of ECMA-48 section 8.3.117, written `ESC [ n m` (a Control Sequence
    Introducer, one parameter, and the final byte `m`). */
module Ansi {

  const Esc: char := 27 as char

  /** The Control Sequence Introducer `ESC [`. */
  const Csi: string := [Esc, '[']

  /** An SGR control sequence with the given parameter. */
  function Sgr(parameter: string): string
  {
    Csi + parameter + "m"
  }

  /** Foreground red, used for a failing test. */
  const Failure: string := Sgr("31")
  /** Foreground green, used for a successful test. */
  const Success: string := Sgr("32")
  /** Foreground yellow, used for a pending test. */
  const Pending: string := Sgr("33")
  /** Every graphic rendition back to its default. */
  const Reset: string := Sgr("0")
}

/** The colour values exchanged between the capture side and the lights. */
module Colors {
  import opened Numeric

  /** An 8-bit RGB colour, as the capture side hands it to a light service. */
  datatype Rgb = Rgb(red: Byte, green: Byte, blue: Byte)

  /** A device colour: 16-bit hue, saturation and brightness plus a colour
      temperature in kelvin, the four fields shared by the two LIFX libraries. */
  datatype Hsbk = Hsbk(hue: U16, saturation: U16, brightness: U16, kelvin: U16)

  /** The colour a light service remembers before it has any light to drive. */
  const White: Rgb := Rgb(255, 255, 255)
}

/**
 The colour selector: a light (white) watermark on dark regions, a dark
 (black) one otherwise.
 */
module Colour {

  datatype Variant = White | Black

  /** Mid-gray 128 itself counts as light and gets the black watermark. */
  function ChooseColour(brightness: real): (v: Variant)
    ensures v == White <==> brightness < 128.0
    ensures v == Black <==> 128.0 <= brightness
  {
    if brightness < 128.0 then White else Black
  }

  /** The choice is monotone: a region at least as bright as one that gets black also gets black. */
  lemma ChooseColourMonotone(a: real, b: real)
    requires a <= b
    ensures ChooseColour(a) == Black ==> ChooseColour(b) == Black
    ensures ChooseColour(b) == White ==> ChooseColour(a) == White
  {
  }
}

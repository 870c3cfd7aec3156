/** Grey levels used by the animation engine.
    Every colour the engine writes is a grey '#xxxxxx' with three equal
    channels, so a colour is represented by its channel value (0x19 for
    '#191919'). */
module Colors {

  /** The unlit cell colour '#191919'. */
  const Background: int := 0x19
  /** The lit cell colour '#eeeeee' of a glow footprint. */
  const Bright: int := 0xee
  /** The neighbour colour '#3a3a3a' of a glow footprint. */
  const Glow: int := 0x3a

  /** The colour of a lit burst cell at the given fade intensity: a
      ten-step table, background once the intensity reaches zero. */
  function FadedBright(intensity: real): (g: int)
    ensures Background <= g <= Bright
    ensures g == Background <==> intensity <= 0.0
    ensures g == Bright <==> intensity >= 0.9
  {
    if intensity >= 0.9 then 0xee
    else if intensity >= 0.8 then 0xdd
    else if intensity >= 0.7 then 0xcc
    else if intensity >= 0.6 then 0xbb
    else if intensity >= 0.5 then 0xaa
    else if intensity >= 0.4 then 0x99
    else if intensity >= 0.3 then 0x88
    else if intensity >= 0.2 then 0x77
    else if intensity >= 0.1 then 0x55
    else if intensity > 0.0 then 0x33
    else 0x19
  }

  /** The colour of the neighbours of a lit burst cell: a parallel table
      that is always darker than the lit cell, and background from
      intensities below 0.1 on. */
  function FadedGlow(intensity: real): (g: int)
    ensures Background <= g <= Glow
    ensures g <= FadedBright(intensity)
    ensures intensity > 0.0 ==> g < FadedBright(intensity)
    ensures g == Background <==> intensity < 0.1
    ensures g == Glow <==> intensity >= 0.9
  {
    if intensity >= 0.9 then 0x3a
    else if intensity >= 0.8 then 0x35
    else if intensity >= 0.7 then 0x30
    else if intensity >= 0.6 then 0x2b
    else if intensity >= 0.5 then 0x26
    else if intensity >= 0.4 then 0x21
    else if intensity >= 0.3 then 0x1e
    else if intensity >= 0.2 then 0x1b
    else if intensity >= 0.1 then 0x1a
    else if intensity > 0.0 then 0x19
    else 0x19
  }

  /** Both tables are step functions that never get darker as the
      intensity grows. */
  lemma FadeTablesMonotonic(x: real, y: real)
    requires x <= y
    ensures FadedBright(x) <= FadedBright(y)
    ensures FadedGlow(x) <= FadedGlow(y)
  {
  }
}

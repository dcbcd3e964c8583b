/** The attribute-byte packer of src/drivers/colors.cpp. */
module Colors {
  import opened Bits

  /** Color::GREEN and Color::BLACK. The numeric values of the Color enumeration
      are declared in colors.hpp, which is not part of this model, so they are
      left unspecified: nothing below depends on which byte they are. */
  const Green: Byte
  const Black: Byte

  /** Colors::make: `(background << 4) + foreground`, computed on int after the
      usual promotion and truncated to 8 bits by the std::uint8_t return type. */
  function Make(foreground: Byte, background: Byte): (r: Byte)
    ensures r % 16 == foreground % 16
    ensures foreground < 16 && background < 16 ==> r / 16 == background
  {
    PackedNibbles(foreground, background);
    (background * 16 + foreground) % 0x100
  }

  /** Truncating `(background << 4) + foreground` to 8 bits keeps the foreground
      in bits 0..3, and keeps the background in bits 4..7 when both fit a nibble. */
  lemma PackedNibbles(foreground: Byte, background: Byte)
    ensures ((background * 16 + foreground) % 0x100) % 16 == foreground % 16
    ensures foreground < 16 && background < 16 ==>
              ((background * 16 + foreground) % 0x100) / 16 == background
  {
  }

  /** The low nibble of an attribute byte. */
  function Foreground(attribute: Byte): Byte {
    attribute % 16
  }

  /** The high nibble of an attribute byte. */
  function Background(attribute: Byte): Byte {
    attribute / 16
  }

  /** Colors::makeDefault: green text on a black background. */
  function MakeDefault(): Byte {
    Make(Green, Black)
  }

  /** Two colours that each fit in a nibble are recovered from the packed byte. */
  lemma MakeUnpacks(foreground: Byte, background: Byte)
    requires foreground < 16 && background < 16
    ensures Foreground(Make(foreground, background)) == foreground
    ensures Background(Make(foreground, background)) == background
  {
  }

  /** Every attribute byte is the packing of its own two nibbles. */
  lemma MakeRepacks(attribute: Byte)
    ensures Make(Foreground(attribute), Background(attribute)) == attribute
  {
  }

  /** Packing is injective on nibble-sized colours. */
  lemma MakeInjective(f1: Byte, b1: Byte, f2: Byte, b2: Byte)
    requires f1 < 16 && b1 < 16 && f2 < 16 && b2 < 16
    requires Make(f1, b1) == Make(f2, b2)
    ensures f1 == f2 && b1 == b2
  {
  }

  /** With a background value of 0 the attribute byte is the foreground itself. */
  lemma MakeZeroBackground(foreground: Byte)
    ensures Make(foreground, 0) == foreground
  {
  }

  /** The default attribute carries Green in its low nibble and Black in its high
      nibble whenever those colours are nibble-sized. */
  lemma DefaultIsGreenOnBlack()
    requires Green < 16 && Black < 16
    ensures Foreground(MakeDefault()) == Green
    ensures Background(MakeDefault()) == Black
  {
  }
}

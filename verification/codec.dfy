/**
 The record codec of the persistent RGB store: one 32-bit word holds the
 on/off state and the three colour components, one byte each.

   bits  0-7   on/off state
   bits  8-15  red
   bits 16-23  green
   bits 24-31  blue

 The getters and setters mirror the mask-and-shift macros of the store; the
 contracts state the layout independently, as base-256 digits of the word.
 */
module Codec {

  type Word = bv32
  type Byte = bv8

  const STATE_MASK: Word := 0x0000_00FF
  const RED_MASK: Word := 0x0000_FF00
  const GREEN_MASK: Word := 0x00FF_0000
  const BLUE_MASK: Word := 0xFF00_0000

  /** The pattern an erased flash word reads back as. */
  const ERASED: Word := 0xFFFF_FFFF

  /** The four logical fields of a record. */
  datatype Fields = Fields(state: Byte, red: Byte, green: Byte, blue: Byte)

  /** Digit 0 (least significant) of the word in base 256. */
  function GetState(w: Word): (s: Byte)
    ensures s as Word == w % 0x100
  {
    (w & STATE_MASK) as Byte
  }

  /** Digit 1 of the word in base 256. */
  function GetRed(w: Word): (r: Byte)
    ensures r as Word == w / 0x100 % 0x100
  {
    ((w & RED_MASK) >> 8) as Byte
  }

  /** Digit 2 of the word in base 256. */
  function GetGreen(w: Word): (g: Byte)
    ensures g as Word == w / 0x1_0000 % 0x100
  {
    ((w & GREEN_MASK) >> 16) as Byte
  }

  /** Digit 3 (most significant) of the word in base 256. */
  function GetBlue(w: Word): (b: Byte)
    ensures b as Word == w / 0x100_0000
  {
    ((w & BLUE_MASK) >> 24) as Byte
  }

  /** The four fields of a word, as boot decodes them. */
  function Decode(w: Word): Fields
  {
    Fields(GetState(w), GetRed(w), GetGreen(w), GetBlue(w))
  }

  /**
   Stores the low byte of a 32-bit state value; the caller of the store
   passes the state as a 32-bit integer, and the bits above the low byte
   are dropped by the mask.
   */
  function SetState(w: Word, s: Word): (w': Word)
    ensures GetState(w') == GetState(s)
    ensures GetRed(w') == GetRed(w)
    ensures GetGreen(w') == GetGreen(w)
    ensures GetBlue(w') == GetBlue(w)
  {
    (w & !STATE_MASK) | (s & STATE_MASK)
  }

  function SetRed(w: Word, r: Byte): (w': Word)
    ensures GetRed(w') == r
    ensures GetState(w') == GetState(w)
    ensures GetGreen(w') == GetGreen(w)
    ensures GetBlue(w') == GetBlue(w)
  {
    (w & !RED_MASK) | (((r as Word) << 8) & RED_MASK)
  }

  function SetGreen(w: Word, g: Byte): (w': Word)
    ensures GetGreen(w') == g
    ensures GetState(w') == GetState(w)
    ensures GetRed(w') == GetRed(w)
    ensures GetBlue(w') == GetBlue(w)
  {
    (w & !GREEN_MASK) | (((g as Word) << 16) & GREEN_MASK)
  }

  function SetBlue(w: Word, b: Byte): (w': Word)
    ensures GetBlue(w') == b
    ensures GetState(w') == GetState(w)
    ensures GetRed(w') == GetRed(w)
    ensures GetGreen(w') == GetGreen(w)
  {
    (w & !BLUE_MASK) | (((b as Word) << 24) & BLUE_MASK)
  }

  /** Overwrites the three colour bytes, in the order the store does it. */
  function SetColor(w: Word, r: Byte, g: Byte, b: Byte): (w': Word)
    ensures Decode(w') == Fields(GetState(w), r, g, b)
  {
    SetBlue(SetGreen(SetRed(w, r), g), b)
  }

  /** The four setters, applied to any base word, leave exactly their inputs. */
  lemma ComposeRoundTrip(base: Word, s: Byte, r: Byte, g: Byte, b: Byte)
    ensures Decode(SetBlue(SetGreen(SetRed(SetState(base, s as Word), r), g), b))
            == Fields(s, r, g, b)
  {
  }

  /** The four fields determine the word: the layout has no unused bits. */
  lemma DecodeInjective(w1: Word, w2: Word)
    ensures Decode(w1) == Decode(w2) <==> w1 == w2
  {
  }

  /** The word is the base-256 number whose digits are its four fields. */
  lemma Reassemble(w: Word)
    ensures w == GetState(w) as Word + GetRed(w) as Word * 0x100
                 + GetGreen(w) as Word * 0x1_0000 + GetBlue(w) as Word * 0x100_0000
  {
  }

  /** The erased pattern decodes to the all-255 record. */
  lemma ErasedDecodesToAllOnes()
    ensures Decode(ERASED) == Fields(0xFF, 0xFF, 0xFF, 0xFF)
  {
  }
}

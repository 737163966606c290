/** The bytes of 8.3 names: which there are, and the two cases of a letter. */
module NameBytes {
  import opened EntryCodec

  function Upper(b: byte): byte { if 0x61 <= b <= 0x7A then b - 0x20 else b }

  function Lower(b: byte): byte { if 0x41 <= b <= 0x5A then b + 0x20 else b }

  /** Capital letters, digits, the marks `! # $ % & ' ( ) - @ ^ _ { } ~` and the back quote, and
      every byte from 0x7F. */
  predicate Legal(b: byte) {
    || 0x41 <= b <= 0x5A || 0x30 <= b <= 0x39
    || b == 0x21 || 0x23 <= b <= 0x29 || b == 0x2D || b == 0x40
    || b == 0x5E || b == 0x5F || b == 0x60 || b == 0x7B || b == 0x7D || b >= 0x7E
  }

  /** Written out as characters. */
  lemma LegalCharacters(b: byte)
    requires b < 0x7F
    ensures Legal(b) <==> 'A' <= b as char <= 'Z' || '0' <= b as char <= '9' || b as char in {
      '!', '#', '$', '%', '&', '\'', '(', ')', '-', '@', '^', '_', '`', '{', '}', '~'}
  {
  }

  /** Each small letter has the capital at its place in the alphabet, and nothing else changes. */
  lemma CapitalOf(b: byte)
    ensures Upper(b) == if 'a' <= b as char <= 'z' then 'A' as int + (b - 'a' as int) else b
    ensures Lower(b) == if 'A' <= b as char <= 'Z' then 'a' as int + (b - 'A' as int) else b
  {
  }
}

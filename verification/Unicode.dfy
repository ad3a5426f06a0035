/** The encoding forms of section 3.9 of the Unicode Standard: scalar values, UTF-16 (D91) and
    UTF-8 (D92, Tables 3-6 and 3-7). */
module Unicode {

  /** D76: a code point that is not a surrogate. */
  predicate Scalar(ch: bv32) {
    ch < 0xD800 || 0xDFFF < ch <= 0x10FFFF
  }

  predicate Surrogate(ch: bv32) {
    0xD800 <= ch <= 0xDFFF
  }

  function Utf32(ch: bv32): seq<bv32> {
    [ch]
  }

  /** D91: one unit, or a surrogate pair carrying twenty bits. */
  function Utf16(ch: bv32): seq<bv16> {
    if ch < 0x10000 then [(ch & 0xFFFF) as bv16]
    else [High(ch), Low(ch)]
  }

  function High(ch: bv32): bv16 {
    0xD800 + (((ch - 0x10000) >> 10) & 0x3FF) as bv16
  }

  function Low(ch: bv32): bv16 {
    0xDC00 + (ch & 0x3FF) as bv16
  }

  /** Table 3-6. */
  function Utf8(ch: bv32): seq<bv8> {
    if ch < 0x80 then [(ch & 0x7F) as bv8]
    else if ch < 0x800 then [Lead2(ch), Trail(ch)]
    else if ch < 0x10000 then [Lead3(ch), Trail(ch >> 6), Trail(ch)]
    else [Lead4(ch), Trail(ch >> 12), Trail(ch >> 6), Trail(ch)]
  }

  function Lead2(ch: bv32): bv8 {
    0xC0 | ((ch >> 6) & 0x1F) as bv8
  }

  function Lead3(ch: bv32): bv8 {
    0xE0 | ((ch >> 12) & 0xF) as bv8
  }

  function Lead4(ch: bv32): bv8 {
    0xF0 | ((ch >> 18) & 0x7) as bv8
  }

  function Trail(ch: bv32): bv8 {
    0x80 | (ch & 0x3F) as bv8
  }

  predicate Continuation(b: bv8) {
    0x80 <= b <= 0xBF
  }

  /** Table 3-7: the well-formed byte sequences of one character. */
  predicate Table37(s: seq<bv8>) {
    match |s|
    case 1 => s[0] <= 0x7F
    case 2 => 0xC2 <= s[0] <= 0xDF && Continuation(s[1])
    case 3 => Continuation(s[2]) && (
        || (s[0] == 0xE0 && 0xA0 <= s[1] <= 0xBF)
        || (0xE1 <= s[0] <= 0xEC && Continuation(s[1]))
        || (s[0] == 0xED && 0x80 <= s[1] <= 0x9F)
        || (0xEE <= s[0] <= 0xEF && Continuation(s[1])))
    case 4 => Continuation(s[2]) && Continuation(s[3]) && (
        || (s[0] == 0xF0 && 0x90 <= s[1] <= 0xBF)
        || (0xF1 <= s[0] <= 0xF3 && Continuation(s[1]))
        || (s[0] == 0xF4 && 0x80 <= s[1] <= 0x8F))
    case _ => false
  }

  /** D91: single units outside the surrogates, and high-low pairs. */
  predicate WellFormedUnit16(s: seq<bv16>) {
    match |s|
    case 1 => s[0] < 0xD800 || 0xDFFF < s[0]
    case 2 => 0xD800 <= s[0] <= 0xDBFF && 0xDC00 <= s[1] <= 0xDFFF
    case _ => false
  }
}

/** The input decoder of timer.go: classifies the bytes accumulated from the
    raw-mode keyboard into "wait for more", "a key" or "a sequence to ignore". */
module Input {

  newtype byte = x: int | 0 <= x < 256

  const ESC: byte := 0x1b
  const LBRACKET: byte := 0x5b  // '['
  const UPPER_M: byte := 0x4d   // 'M'
  const LOWER_M: byte := 0x6d   // 'm'

  /** Go's `(byte, bool)` result: `resolved` is false while more bytes are
      needed; a resolved result with key 0 is a sequence to discard. */
  datatype Parsed = Parsed(key: byte, resolved: bool)
  {
    predicate Unresolved() { !resolved }
    predicate Discarded() { resolved && key == 0 }
  }

  function Last(s: seq<byte>): byte
    requires |s| > 0
  {
    s[|s| - 1]
  }

  /** The final byte of an escape sequence: 0x40 to 0x7E. */
  predicate IsFinalByte(b: byte) { 0x40 <= b <= 0x7E }

  /** parseInput as written. Whatever the input, a delivered (non-zero) key
      is the first byte and never ESC: a sequence starting with ESC is only
      ever waited on or discarded. */
  function ParseInput(s: seq<byte>): (r: Parsed)
    ensures r.Unresolved() ==> r.key == 0
    ensures r.key != 0 ==> r.resolved && |s| >= 1 && s[0] != ESC && r.key == s[0]
    ensures |s| >= 1 && s[0] != ESC ==> r == Parsed(s[0], true)
  {
    if |s| == 0 then Parsed(0, false)
    else if |s| == 1 then
      if s[0] == ESC then Parsed(0, false)  // wait for more bytes or the timeout
      else Parsed(s[0], true)
    else if s[0] == ESC then
      if |s| >= 3 && (s[1] == LBRACKET || s[1] == UPPER_M) && s[1] == UPPER_M && |s| >= 6 then
        Parsed(0, true)
      else if |s| >= 3 && s[1] == LBRACKET then
        // the '[' form is only ever ended by 'm' or 'M'
        if Last(s) == LOWER_M || Last(s) == UPPER_M then Parsed(0, true) else Parsed(0, false)
      else if |s| >= 3 && IsFinalByte(Last(s)) then Parsed(0, true)
      else Parsed(0, false)
    else Parsed(s[0], true)
  }

  /** parseInput with the '[' branch as its comments describe it: an X10 mouse
      report ESC '[' 'M' Cb Cx Cy is discarded only once all six bytes are in,
      and every other ESC '[' sequence (an arrow key, an SGR mouse report
      ending in 'm' or 'M') ends at its final byte. */
  function ParseInputFixed(s: seq<byte>): (r: Parsed)
    ensures r.Unresolved() ==> r.key == 0
    ensures r.key != 0 ==> r.resolved && |s| >= 1 && s[0] != ESC && r.key == s[0]
    ensures |s| >= 1 && s[0] != ESC ==> r == Parsed(s[0], true)
  {
    if |s| == 0 then Parsed(0, false)
    else if |s| == 1 then
      if s[0] == ESC then Parsed(0, false)
      else Parsed(s[0], true)
    else if s[0] == ESC then
      if |s| >= 3 && s[1] == LBRACKET && s[2] == UPPER_M then Parsed(0, |s| >= 6)
      else if |s| >= 3 && s[1] == UPPER_M && |s| >= 6 then Parsed(0, true)
      else if |s| >= 3 && IsFinalByte(Last(s)) then Parsed(0, true)
      else Parsed(0, false)
    else Parsed(s[0], true)
  }

  /** Which of the two decoders the keyboard reader runs. */
  datatype Decoder = AsWritten | Corrected

  function Decode(d: Decoder, s: seq<byte>): (r: Parsed)
    ensures r.Unresolved() ==> r.key == 0
    ensures r.key != 0 ==> r.resolved && |s| >= 1 && s[0] != ESC && r.key == s[0]
    ensures |s| >= 1 && s[0] != ESC ==> r == Parsed(s[0], true)
    ensures s == [ESC] ==> r.Unresolved()
  {
    match d
    case AsWritten => ParseInput(s)
    case Corrected => ParseInputFixed(s)
  }

  /** Short inputs: nothing is unresolved, a lone byte other than ESC is that
      key, a lone ESC waits, and ESC plus one byte always waits. */
  lemma ParseShortInputs(b: byte, c: byte)
    ensures ParseInput([]) == Parsed(0, false)
    ensures b != ESC ==> ParseInput([b]) == Parsed(b, true)
    ensures ParseInput([ESC]) == Parsed(0, false)
    ensures ParseInput([ESC, c]) == Parsed(0, false)
  {
  }

  /** ESC '[' sequences of three or more bytes resolve, discarded, exactly when
      the last byte is 'm' or 'M'; the generic final-byte rule never ends one. */
  lemma ParseBracketSequences(s: seq<byte>)
    requires |s| >= 3 && s[0] == ESC && s[1] == LBRACKET
    ensures ParseInput(s).resolved <==> Last(s) == LOWER_M || Last(s) == UPPER_M
    ensures ParseInput(s).resolved ==> ParseInput(s).Discarded()
    ensures IsFinalByte(Last(s)) && Last(s) != LOWER_M && Last(s) != UPPER_M ==> ParseInput(s).Unresolved()
  {
  }

  /** With the intended decoder an ESC '[' sequence other than an X10 mouse
      report of three or more bytes resolves, discarded, exactly when its last
      byte is a final byte. */
  lemma ParseFixedBracketSequences(s: seq<byte>)
    requires |s| >= 3 && s[0] == ESC && s[1] == LBRACKET && s[2] != UPPER_M
    ensures ParseInputFixed(s).resolved <==> IsFinalByte(Last(s))
    ensures ParseInputFixed(s).key == 0
  {
  }

  /** Other ESC sequences: ESC 'M' of six or more bytes is discarded; any other
      of three or more bytes is discarded exactly when it ends in a final byte. */
  lemma ParseOtherEscapes(s: seq<byte>)
    requires |s| >= 3 && s[0] == ESC && s[1] != LBRACKET
    ensures s[1] == UPPER_M && |s| >= 6 ==> ParseInput(s) == Parsed(0, true)
    ensures !(s[1] == UPPER_M && |s| >= 6) ==> (ParseInput(s).resolved <==> IsFinalByte(Last(s)))
    ensures ParseInput(s).key == 0
  {
  }
}

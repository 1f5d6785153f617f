/**
  The keyboard shortcuts of `keyPressEvent` (imageviewer.cpp). The key code
  is cut to a `char` before it is compared, so only its lowest eight bits
  matter.
 */
module Keys {

  datatype Command = Reset | Skip | Export | Next | Undo | Ignore

  /** The low byte of a key code, as the cast to `char` keeps it (two's complement truncation). */
  function LowByte(code: int): (b: int)
    ensures 0 <= b < 256
    ensures (code - b) % 256 == 0
  {
    code % 256
  }

  /** The action bound to a key: 'R' reset, 'S' skip, 'E' export, 'W' next image, 'Z' undo. */
  function KeyCommand(code: int): Command {
    var b := LowByte(code);
    if b == 'R' as int then Reset
    else if b == 'S' as int then Skip
    else if b == 'E' as int then Export
    else if b == 'W' as int then Next
    else if b == 'Z' as int then Undo
    else Ignore
  }

  /** The letter bound to each action; `Ignore` has none and gets 0. */
  function KeyCode(c: Command): int {
    match c
    case Reset => 'R' as int
    case Skip => 'S' as int
    case Export => 'E' as int
    case Next => 'W' as int
    case Undo => 'Z' as int
    case Ignore => 0
  }

  // ---------------------------------------------------------------------
  // Properties
  // ---------------------------------------------------------------------

  /** Each letter triggers its own action. */
  lemma KeyCommandOfKeyCode(c: Command)
    ensures KeyCommand(KeyCode(c)) == c
  {
  }

  /**
    A key triggers an action exactly when its code agrees with the action's
    letter in the low eight bits.
   */
  lemma KeyCommandExact(code: int, c: Command)
    requires c != Ignore
    ensures KeyCommand(code) == c <==> (code - KeyCode(c)) % 256 == 0
  {
    var b := LowByte(code);
    var k := KeyCode(c);
    assert 0 < k < 256;
    if (code - k) % 256 == 0 {
      LowByteAgree(code, k);
      assert b == k % 256 == k;
    }
  }

  /** Two codes with the same low byte are indistinguishable. */
  lemma LowByteAgree(a: int, b: int)
    requires (a - b) % 256 == 0
    ensures LowByte(a) == LowByte(b)
  {
    var q := (a - b) / 256;
    assert a == b + 256 * q;
    ShiftMod(b, q);
  }

  lemma ShiftMod(b: int, q: int)
    ensures (b + 256 * q) % 256 == b % 256
  {
  }

  /** Codes 256 apart trigger the same action. */
  lemma KeyCommandPeriodic(code: int, k: int)
    ensures KeyCommand(code + 256 * k) == KeyCommand(code)
  {
    LowByteAgree(code + 256 * k, code);
  }
}

/** The precompile's program id is the 32-byte number that its text writes in base 58. */
module ProgramId {
  import opened Basics
  import opened Ledger

  /** The value of a base-58 character: digits and letters but `0`, `O`, `I` and `l`. */
  function Digit(c: char): nat {
    var n := c as int;
    if '1' <= c <= '9' then n - 49
    else if 'A' <= c <= 'H' then n - 56
    else if 'J' <= c <= 'N' then n - 57
    else if 'P' <= c <= 'Z' then n - 58
    else if 'a' <= c <= 'k' then n - 64
    else if 'm' <= c <= 'z' then n - 65
    else 0
  }

  /** The number that six characters write. */
  function Six(a: char, b: char, c: char, d: char, e: char, f: char): nat {
    58 * (58 * (58 * (58 * (58 * Digit(a) + Digit(b)) + Digit(c)) + Digit(d)) + Digit(e)) + Digit(f)
  }

  /** The number that four bytes write, the first one highest. */
  function Four(b: seq<byte>, at: nat): nat
    requires at + 4 <= |b|
  {
    256 * (256 * (256 * b[at] as nat + b[at + 1] as nat) + b[at + 2] as nat) + b[at + 3] as nat
  }

  function Eight(b: seq<byte>, at: nat): nat
    requires at + 8 <= |b|
  {
    0x1_0000_0000 * Four(b, at) + Four(b, at + 4)
  }

  const POW_58_6: nat := 58 * 58 * 58 * 58 * 58 * 58
  const POW_58_25: nat := POW_58_6 * POW_58_6 * POW_58_6 * POW_58_6 * 58
  const POW_2_64: nat := 0x1_0000_0000_0000_0000

  /** The text is `Secp256r1SigVerify` and 25 times `1`, the zero of base 58. */
  lemma {:induction false} ProgramIdIsItsText()
    ensures var b := SECP256R1_PROGRAM_ID.bytes;
      var text := (Six('S', 'e', 'c', 'p', '2', '5') * POW_58_6 + Six('6', 'r', '1', 'S', 'i', 'g')) * POW_58_6
        + Six('V', 'e', 'r', 'i', 'f', 'y');
      && Digit('1') == 0
      && ((Eight(b, 0) * POW_2_64 + Eight(b, 8)) * POW_2_64 + Eight(b, 16)) * POW_2_64 + Eight(b, 24)
         == text * POW_58_25
  {
    hide SECP256R1_PROGRAM_ID, Eight;
    FirstHalf();
    SecondHalf();
  }

  lemma FirstHalf()
    ensures Eight(SECP256R1_PROGRAM_ID.bytes, 0) == 0x0692_0dec_2fea_71b5
    ensures Eight(SECP256R1_PROGRAM_ID.bytes, 8) == 0xb723_814d_742d_a903
  {
  }

  lemma SecondHalf()
    ensures Eight(SECP256R1_PROGRAM_ID.bytes, 16) == 0x1c83_e75f_db79_5d56
    ensures Eight(SECP256R1_PROGRAM_ID.bytes, 24) == 0x8e75_4780_2000_0000
  {
  }
}

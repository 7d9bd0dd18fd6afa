/**
  The selection made by `main`'s menu loop: the line read is trimmed and
  parsed as a `u32`; 1, 2 and 3 choose an operation, anything else is an
  invalid option and the menu is shown again.
 */
module Menu {
  import opened Wrappers
  import opened Text

  /** Largest value of `u32`. */
  const U32_MAX: nat := 0xFFFF_FFFF

  /** What one round of the menu loop does with the line it read. */
  datatype Action = RunSieve | RunPi | Exit | InvalidOption

  /**
    The `match` on the trimmed line parsed as a `u32`: the sieve, pi and exit
    are chosen exactly when the trimmed line spells 1, 2 and 3; every other
    line, numeric or not, is an invalid option.
   */
  function Classify(line: string): (a: Action)
    ensures a == RunSieve <==> SpellsNumber(Trim(line), 1)
    ensures a == RunPi <==> SpellsNumber(Trim(line), 2)
    ensures a == Exit <==> SpellsNumber(Trim(line), 3)
  {
    ParseUnsignedMeans(Trim(line), U32_MAX, 1);
    ParseUnsignedMeans(Trim(line), U32_MAX, 2);
    ParseUnsignedMeans(Trim(line), U32_MAX, 3);
    match ParseUnsigned(Trim(line), U32_MAX)
    case Some(1) => RunSieve
    case Some(2) => RunPi
    case Some(3) => Exit
    case _ => InvalidOption
  }

  /** Whether the loop shows the menu again after this line: unless the line spells 3, it does. */
  predicate Continues(line: string)
    ensures Continues(line) <==> !SpellsNumber(Trim(line), 3)
  {
    Classify(line) != Exit
  }

  /**
    A selector typed as a number, with an optional `+`, leading zeros and any
    whitespace around it (the line break `read_line` keeps among it), chooses
    the operation of that number; every other number is an invalid option.
   */
  lemma ClassifyNumeral(pre: string, sign: string, z: string, k: nat, post: string)
    requires AllWhitespace(pre) && AllWhitespace(post)
    requires (sign == "" || sign == "+") && AllZeros(z)
    ensures k == 1 ==> Classify(pre + (sign + z + DecimalText(k)) + post) == RunSieve
    ensures k == 2 ==> Classify(pre + (sign + z + DecimalText(k)) + post) == RunPi
    ensures k == 3 ==> Classify(pre + (sign + z + DecimalText(k)) + post) == Exit
    ensures k !in {1, 2, 3} ==> Classify(pre + (sign + z + DecimalText(k)) + post) == InvalidOption
  {
    TrimNumeral(pre, sign, z, k, post);
    ParseNumeral(sign, z, k, U32_MAX);
  }

  /**
    A line that, once trimmed, is empty or holds anything but digits (after
    an optional leading `+`) is an invalid option, and the loop goes on.
   */
  lemma NonNumericIsInvalid(line: string)
    requires Trim(line) == [] || exists i :: 0 <= i < |Trim(line)| && !IsDigit(Trim(line)[i]) && !(i == 0 && Trim(line)[i] == '+')
    ensures Classify(line) == InvalidOption && Continues(line)
  {
    ParseUnsignedMeans(Trim(line), U32_MAX, 1);
    ParseUnsignedMeans(Trim(line), U32_MAX, 2);
    ParseUnsignedMeans(Trim(line), U32_MAX, 3);
  }

  /** A blank line, spaces and the line break only, is an invalid option. */
  lemma BlankLineIsInvalid(line: string)
    requires AllWhitespace(line)
    ensures Classify(line) == InvalidOption
  {
    ParseUnsignedMeans([], U32_MAX, 1);
    ParseUnsignedMeans([], U32_MAX, 2);
    ParseUnsignedMeans([], U32_MAX, 3);
  }
}

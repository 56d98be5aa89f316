/** The machine's int: a size stored in 32 bits, read with a sign. */
module Machine {
  function ToInt(n: int): (r: int) {
    var m := n % 0x1_0000_0000;
    if m < 0x8000_0000 then m else m - 0x1_0000_0000
  }

  /** What the conversion keeps of a size below 2^32. */
  lemma ToIntExact(n: int)
    requires 0 <= n < 0x1_0000_0000
    ensures n < 0x8000_0000 ==> ToInt(n) == n
    ensures 0x8000_0000 <= n ==> ToInt(n) < 0
  {
    assert n % 0x1_0000_0000 == n;
  }
}

/** The machine word: `size_t` / `unsigned long` arithmetic where its
  * wrap-around is part of the behaviour. */
module Machine {
  /** Size of the machine word that `size_t` wraps around. */
  const WORD: nat := 0x1_0000_0000_0000_0000

  /** `(size_t)-1`: the value the search functions return for "absent". */
  const NOT_FOUND: nat := WORD - 1

  /** `x - 1` on `size_t`: zero wraps around to the largest word. */
  function Decrement(x: nat): (r: nat)
    requires x < WORD
    ensures r < WORD && (r + 1) % WORD == x
  {
    if x == 0 then WORD - 1 else x - 1
  }
}

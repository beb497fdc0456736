/** Powers of two. */
module Powers {

  function TwoTo(n: nat): (p: int)
    ensures p >= 1
  {
    if n == 0 then 1 else 2 * TwoTo(n - 1)
  }
}

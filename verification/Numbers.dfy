/** Numbers over the reals. */
module Numbers {

  function Max(a: real, b: real): real {
    if a >= b then a else b
  }
}

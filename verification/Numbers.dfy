/** Natural numbers. */
module Numbers {

  function Max(a: nat, b: nat): nat { if a < b then b else a }
}

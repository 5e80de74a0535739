/** Constants of the EROFS compressed-compact layout shared by its writer and its readers. */
module CompactFormat {
  import opened Core

  const PLAIN := 0
  const HEAD1 := 1
  const NONHEAD := 2
  const HEAD2 := 3

  /** Bytes of an index of 4-byte entries, two to an 8-byte pack. */
  function IndexLength(clusters: nat): nat {
    DivCeil(clusters, 2) * 8
  }
}

/** Direction and order-status enumerations shared by the SDK.
    `Dir` is an unscoped enum over `uint8_t`, so any byte value is a `Dir`
    as far as the casts in `opposite_dir` and `dir_sign` are concerned. */
module CommonEnums {

  /** The underlying `uint8_t` of `enum Dir`. */
  newtype Dir = x: int | 0 <= x < 256

  const BUY: Dir := 0
  const BID: Dir := 0
  const SELL: Dir := 1
  const ASK: Dir := 1
  const UNKNOWN: Dir := 3

  /** BID and ASK: the two values usable as indices of per-direction arrays. */
  predicate IsSide(d: Dir) {
    d == BID || d == ASK
  }

  datatype OrderStatus = Adding | Active | Deleting | Deleted

  /** `static_cast<int8_t>` of a byte on a two's-complement target. */
  function ToInt8(b: Dir): (r: int)
    ensures -128 <= r < 128
    ensures (r - b as int) % 256 == 0
  {
    if b < 128 then b as int else b as int - 256
  }

  /** `opposite_dir`: `1 - dir` is computed in `int` and cast back to the
      8-bit enum, which keeps it modulo 256. */
  function OppositeDir(d: Dir): (r: Dir)
    ensures (r as int + d as int - 1) % 256 == 0
  {
    ((1 - d as int) % 256) as Dir
  }

  /** `dir_sign`: +1 for BID/BUY, -1 for ASK/SELL. */
  function DirSign(d: Dir): (r: int)
    ensures r % 2 == 1
  {
    ToInt8(d) * -2 + 1
  }

  lemma OppositeDirSwapsSides()
    ensures OppositeDir(BID) == ASK && OppositeDir(ASK) == BID
  {
  }

  lemma OppositeDirInvolution(d: Dir)
    requires IsSide(d)
    ensures IsSide(OppositeDir(d)) && OppositeDir(d) != d
    ensures OppositeDir(OppositeDir(d)) == d
  {
  }

  lemma DirSignValues()
    ensures DirSign(BID) == 1 && DirSign(ASK) == -1
    ensures BUY == BID && SELL == ASK
  {
  }

  lemma DirSignOpposite(d: Dir)
    requires IsSide(d)
    ensures DirSign(OppositeDir(d)) == -DirSign(d)
  {
  }

  /** UNKNOWN is not an index of a two-element array, and its opposite is the
      byte 254, which names no enumerator at all. */
  lemma UnknownIsNoSide()
    ensures !IsSide(UNKNOWN) && UNKNOWN as int >= 2
    ensures OppositeDir(UNKNOWN) == 254
    ensures OppositeDir(UNKNOWN) !in {BUY, BID, SELL, ASK, UNKNOWN}
    ensures DirSign(UNKNOWN) == -5
  {
  }
}

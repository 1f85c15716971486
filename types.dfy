/** The public types of tinypgm (src/include/tinypgm.h). */
module Types {

  /** `tpgm_status_t`: every library function answers success or failure only. */
  datatype Status = Fail | Ok

  /** `tpgm_info_t`: the image information a header describes. `width`,
      `height` and `maxValue` are C `int`s, `dataSize` a `size_t`. */
  datatype Info = Info(width: int, height: int, maxValue: int, dataSize: nat)

  /** Contents of a `tpgm_info_t` that nobody has written yet. */
  const Blank := Info(0, 0, 0, 0)

  /** A `tpgm_info_t*`: the caller's record, which the library writes field
      by field. */
  class InfoRef {
    var info: Info

    constructor ()
      ensures info == Blank
    {
      info := Blank;
    }
  }
}

/** What the modules share: optional values and the error codes of the library. */
module Results {

  datatype Option<+T> = None | Some(value: T)

  const GRIB_SUCCESS := 0
  const GRIB_INTERNAL_ERROR := -2
  const GRIB_IO_PROBLEM := -11
  const GRIB_DECODING_ERROR := -13
  const GRIB_ENCODING_ERROR := -14
  const GRIB_INVALID_FILE := -27
}

/** The generic container of section 7 of the USB Still Image Capture Device Definition. */
module PtpContainer {
  import Words

  const HEADER_LEN: nat := 12
  const PARAM_LEN: nat := 4

  const COMMAND_BLOCK: Words.u16 := 1
  const DATA_BLOCK: Words.u16 := 2
  const RESPONSE_BLOCK: Words.u16 := 3
}

/** The command statuses the gateway reports itself. */
module StatusCodes {
  const ESME_ROK := 0
  const ESME_RINVCMDID := 0x03
  const ESME_RBINDFAIL := 0x0D
  const ESME_RCANCELFAIL := 0x11
  const ESME_RREPLACEFAIL := 0x13
  const ESME_RSUBMITFAIL := 0x45
  const ESME_RINVSCHED := 0x61
  const ESME_RINVEXPIRY := 0x62
  const ESME_RQUERYFAIL := 0x67
  const ESME_RUNKNOWNERR := 0xFF
  const ESME_RBCASTFAIL := 0x10D
  const ESME_RBCASTQUERYFAIL := 0x10E
  const ESME_RBCASTCANCELFAIL := 0x10F
}

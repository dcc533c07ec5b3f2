/** What the host connection returns in place of a word. */
module HostCodes {

  const NODATA := -1
  const DISCONNECT := -3
}

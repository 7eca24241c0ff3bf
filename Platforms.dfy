/** Classification of the host operating system identifier reported by Node's `os.platform()`. */
module Platforms {

  datatype Platform = MacOS | Windows | Linux

  /**
   * `getPlatform`: "darwin" is macOS, "win32" is Windows, and every other
   * identifier (freebsd, aix, sunos, ...) falls into the Linux catch-all.
   */
  function GetPlatform(osId: string): (p: Platform)
    ensures p == MacOS <==> osId == "darwin"
    ensures p == Windows <==> osId == "win32"
    ensures p == Linux <==> osId != "darwin" && osId != "win32"
  {
    if osId == "darwin" then MacOS
    else if osId == "win32" then Windows
    else Linux
  }
}

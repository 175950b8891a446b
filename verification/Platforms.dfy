/** The two platforms a build artifact can be for. */
module Platforms {
  import opened Bytes

  datatype Platform = Android | IOS

  /** "android" and "ios" */
  function PlatformName(p: Platform): seq<Byte>
  {
    if p.Android? then [0x61, 0x6E, 0x64, 0x72, 0x6F, 0x69, 0x64] else [0x69, 0x6F, 0x73]
  }
}

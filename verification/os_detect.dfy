/** Classification of the host from the text of `/etc/os-release` and the
    existence of `/etc/alpine-release`. */
module OsDetect {
  import opened Text

  datatype Option<T> = None | Some(value: T)

  /** The record the installer dispatches on. */
  datatype OsInfo = OsInfo(osType: string, packageManager: string, installCmd: string)

  const UNKNOWN := OsInfo("", "", "")
  const DEBIAN := OsInfo("debian", "apt", "apt-get update && apt-get install -y")
  const RHEL := OsInfo("rhel", "yum", "yum install -y")
  const ALPINE := OsInfo("alpine", "apk", "apk add --no-cache")

  predicate MentionsDebianFamily(text: string) {
    Contains(text, "debian") || Contains(text, "ubuntu") || Contains(text, "armbian")
  }

  predicate MentionsRhelFamily(text: string) {
    Contains(text, "almalinux") || Contains(text, "centos") || Contains(text, "oracle")
  }

  /** `get_os_info`: `osRelease` is the content of `/etc/os-release` when
      that file exists, `alpineRelease` whether `/etc/alpine-release` does.
      The record's fields are overwritten in order, so the Alpine test,
      which runs last, overrides the others. */
  method GetOsInfo(osRelease: Option<string>, alpineRelease: bool) returns (info: OsInfo)
    ensures alpineRelease ==> info == ALPINE
    ensures (!alpineRelease && osRelease.Some? && MentionsDebianFamily(Lower(osRelease.value)))
              ==> info == DEBIAN
    ensures (!alpineRelease && osRelease.Some? && !MentionsDebianFamily(Lower(osRelease.value))
             && MentionsRhelFamily(Lower(osRelease.value)))
              ==> info == RHEL
    ensures (!alpineRelease && (osRelease.None? || (!MentionsDebianFamily(Lower(osRelease.value))
                                                    && !MentionsRhelFamily(Lower(osRelease.value)))))
              ==> info == UNKNOWN
  {
    info := OsInfo("", "", "");
    if osRelease.Some? {
      var text := Lower(osRelease.value);
      if Contains(text, "debian") || Contains(text, "ubuntu") || Contains(text, "armbian") {
        info := info.(osType := "debian");
        info := info.(packageManager := "apt");
        info := info.(installCmd := "apt-get update && apt-get install -y");
      } else if Contains(text, "almalinux") || Contains(text, "centos") || Contains(text, "oracle") {
        info := info.(osType := "rhel");
        info := info.(packageManager := "yum");
        info := info.(installCmd := "yum install -y");
      }
    }
    if alpineRelease {
      info := info.(osType := "alpine");
      info := info.(packageManager := "apk");
      info := info.(installCmd := "apk add --no-cache");
    }
  }
}

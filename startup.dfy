/** The two start-up helpers both servers carry: `initMediaFolder`, whose
    logic is the same in both (the older server fixes the directory to
    `/tmp/skicka/`), and `getLocalIp`, which is identical in both. */
module Startup {
  import opened Wrappers
  import opened Strings
  import opened Files

  const NotADirectoryMessage := "media dir path is not a directory"

  /** `initMediaFolder`: create the media directory when it is absent, pass on
      any other `os.Stat` error, refuse a path that is not a directory. It
      succeeds exactly when a directory stands at the path afterwards. */
  method InitMediaFolder(fs: FileSystem, mediaDir: string, mkdirFails: bool) returns (err: Option<Error>)
    modifies fs
    ensures old(fs.Stat(mediaDir)) == StatError(NotExist) ==>
      err == (if mkdirFails then Some(MkdirFailed) else None) &&
      fs.entries == (if mkdirFails then old(fs.entries) else old(fs.entries)[mediaDir := Directory])
    ensures old(fs.Stat(mediaDir)).StatError? && old(fs.Stat(mediaDir)).err != NotExist ==>
      err == Some(old(fs.Stat(mediaDir)).err) && fs.entries == old(fs.entries)
    ensures old(fs.Stat(mediaDir)) == Info(false) ==>
      err == Some(Message(NotADirectoryMessage)) && fs.entries == old(fs.entries)
    ensures old(fs.Stat(mediaDir)) == Info(true) ==> err == None && fs.entries == old(fs.entries)
    ensures fs.statFaults == old(fs.statFaults)
    ensures err.None? <==> fs.Stat(mediaDir) == Info(true)
  {
    var info := fs.Stat(mediaDir);
    if info == StatError(NotExist) {
      err := fs.Mkdir(mediaDir, mkdirFails);
      return;
    }
    if info.StatError? {
      return Some(info.err);
    }
    if !info.isDir {
      return Some(Message(NotADirectoryMessage));
    }
    return None;
  }

  const UnknownIp := "UNKNOWN"
  const LanPrefix := "192.168."
  const MaskSuffix := "/24"

  /** Position `k` holds the first address of the list in `192.168.0.0/16`. */
  predicate FirstLanAddress(addrs: seq<string>, k: nat) {
    k < |addrs| && HasPrefix(addrs[k], LanPrefix) &&
    forall j :: 0 <= j < k ==> !HasPrefix(addrs[j], LanPrefix)
  }

  /** `getLocalIp` over the result of `net.InterfaceAddrs` (None when that
      call fails): the first address starting with `192.168.`, with its first
      `/24` removed, or `UNKNOWN`, which it returns exactly when the lookup
      failed or no such address exists. */
  method GetLocalIp(addrs: Option<seq<string>>) returns (ip: string)
    ensures addrs.Some? && (exists k: nat :: FirstLanAddress(addrs.value, k)) ==>
      exists k: nat :: FirstLanAddress(addrs.value, k) &&
        ip == ReplaceOnce(addrs.value[k], MaskSuffix, "")
    ensures ip == UnknownIp <==>
      addrs.None? || forall k :: 0 <= k < |addrs.value| ==> !HasPrefix(addrs.value[k], LanPrefix)
  {
    if addrs.None? {
      return UnknownIp;
    }
    var list := addrs.value;
    for k := 0 to |list|
      invariant forall j :: 0 <= j < k ==> !HasPrefix(list[j], LanPrefix)
    {
      if HasPrefix(list[k], LanPrefix) {
        ip := ReplaceOnce(list[k], MaskSuffix, "");
        LanAddressIsKnown(list[k]);
        assert FirstLanAddress(list, k);
        return;
      }
    }
    ip := UnknownIp;
  }

  /** Removing the mask leaves the `192.168.` prefix in place, so a found
      address is never mistaken for `UNKNOWN`. */
  lemma LanAddressIsKnown(addr: string)
    requires HasPrefix(addr, LanPrefix)
    ensures HasPrefix(ReplaceOnce(addr, MaskSuffix, ""), LanPrefix)
    ensures ReplaceOnce(addr, MaskSuffix, "") != UnknownIp
  {
    ReplaceOnceKeepsPrefix(addr, LanPrefix, MaskSuffix, "");
    assert ReplaceOnce(addr, MaskSuffix, "")[0] == '1';
  }
}

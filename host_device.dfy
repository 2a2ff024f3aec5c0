/**
 * The two ends of the derivation path: the 20 bytes the host library's
 * serializePath produces are what extractHDPath reads behind OFFSET_DATA of an
 * Init command.
 */
module HostDevice {
  import Wrappers
  import opened Bytes
  import AppMain
  import HostCommon

  /** The serializer's words decode to the component values the device stores. */
  lemma LemmaSerializedPathDecodes(values: seq<u32>, cmd: seq<byte>, offset: nat)
    requires |values| == AppMain.HDPATH_LEN_DEFAULT
    requires offset + AppMain.PATH_BYTES <= |cmd|
    requires cmd[offset..offset + AppMain.PATH_BYTES] == HostCommon.EncodePath(values)
    ensures AppMain.DecodePath(cmd, offset) == values
  {
    HostCommon.LemmaEncodePathDecodes(values);
    var b := HostCommon.EncodePath(values);
    forall i | 0 <= i < 5 ensures LE32(cmd, offset + 4 * i) == values[i] {
      assert LE32(cmd, offset + 4 * i) == LE32(b, 4 * i);
    }
  }

  /** The values of valid components, in order. */
  function ChildValues(children: seq<HostCommon.Child>): (v: seq<u32>)
    requires forall i :: 0 <= i < |children| ==> children[i].Valid()
    ensures |v| == |children| && forall i :: 0 <= i < |v| ==> v[i] == children[i].Value()
  {
    seq(|children|, i requires 0 <= i < |children| => children[i].Value())
  }

  /**
   * A path printed on the host as `m/a/b/c/d/e` serializes to the encoding of
   * its components; sent in an Init command, it is stored on the device
   * component for component, and whether it is accepted then depends only on
   * those values.
   */
  lemma LemmaHostPathReachesDevice(cfg: AppMain.Config, expert: bool, children: seq<HostCommon.Child>, cmd: seq<byte>, rx: nat)
    requires |children| == 5 && forall i :: 0 <= i < 5 ==> children[i].Valid()
    requires AppMain.Shaped(cfg, cmd, rx) && rx >= cfg.offsetData + AppMain.PATH_BYTES
    requires AppMain.PayloadType(cfg, cmd) == 0 && AppMain.P2(cfg, cmd) <= 1
    requires cmd[cfg.offsetData..cfg.offsetData + AppMain.PATH_BYTES] == HostCommon.EncodePath(ChildValues(children))
    ensures HostCommon.ParsePath(HostCommon.FormatPath(children)) == Wrappers.Ok(ChildValues(children))
    ensures var (s', r) := AppMain.Step(cfg, expert, AppMain.BootState(), cmd, rx);
      && (forall i :: 0 <= i < 5 ==> s'.hdPath[i] == children[i].Value())
      && (r.Ok? <==> AppMain.CheckPath(cfg, s'.hdPath, expert) == Wrappers.Pass)
  {
    HostCommon.LemmaFormatParseRoundTrip(children);
    var values := ChildValues(children);
    assert HostCommon.ParsePath(HostCommon.FormatPath(children)).value == values;
    LemmaSerializedPathDecodes(values, cmd, cfg.offsetData);
    AppMain.LemmaInitOutcome(cfg, expert, AppMain.BootState(), cmd, rx);
  }
}

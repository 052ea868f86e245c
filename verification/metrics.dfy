/** What the check reports to the monitoring agent: one `gauge(name, value,
    device_name=...)` call is one `Gauge`. */
module Metrics {

  datatype Gauge = Gauge(metric: string, value: int, device: string)

  /** Metric name of the adapter state gauge. */
  const AdapterStatus: string := "megaraid.adapter.status"

  /** Metric name of a per-disk gauge whose record key is `key`. */
  function DeviceMetric(key: string): string {
    "megaraid.device." + key
  }

  /** `"%s:megaraid/%s" % (hostname, adapter)` */
  function AdapterDevice(host: string, adapter: string): string {
    host + ":megaraid/" + adapter
  }

  /** `"%s:adapter:%s/%s" % (hostname, adapter, disk)` */
  function DiskDevice(host: string, adapter: string, disk: string): string {
    host + ":adapter:" + adapter + "/" + disk
  }

  /** Different adapters get different device names on one host. */
  lemma AdapterDeviceInjective(host: string, a1: string, a2: string)
    ensures AdapterDevice(host, a1) == AdapterDevice(host, a2) ==> a1 == a2
  {
    var k := |host + ":megaraid/"|;
    if AdapterDevice(host, a1) == AdapterDevice(host, a2) {
      assert AdapterDevice(host, a1)[k..] == a1;
      assert AdapterDevice(host, a2)[k..] == a2;
    }
  }

  /** Different disks get different device names, as long as adapter ids do
      not contain the `/` that separates them from the disk id. */
  lemma DiskDeviceInjective(host: string, a1: string, d1: string, a2: string, d2: string)
    requires '/' !in a1 && '/' !in a2
    ensures DiskDevice(host, a1, d1) == DiskDevice(host, a2, d2) ==> a1 == a2 && d1 == d2
  {
    var k := |host + ":adapter:"|;
    if DiskDevice(host, a1, d1) == DiskDevice(host, a2, d2) {
      var t1, t2 := a1 + "/" + d1, a2 + "/" + d2;
      assert DiskDevice(host, a1, d1)[k..] == t1;
      assert DiskDevice(host, a2, d2)[k..] == t2;
      if |a1| == |a2| {
        assert t1[..|a1|] == a1 && t2[..|a2|] == a2;
        assert t1[|a1| + 1..] == d1 && t2[|a2| + 1..] == d2;
      } else if |a1| < |a2| {
        SlashSeparates(a1, d1, a2, d2);
      } else {
        SlashSeparates(a2, d2, a1, d1);
      }
    }
  }

  /** A shorter adapter id is followed by `/` where the longer one has none. */
  lemma SlashSeparates(a1: string, d1: string, a2: string, d2: string)
    requires '/' !in a2 && |a1| < |a2|
    ensures a1 + "/" + d1 != a2 + "/" + d2
  {
    assert (a1 + "/" + d1)[|a1|] == '/';
    assert (a2 + "/" + d2)[|a1|] == a2[|a1|];
  }

  /** Without that condition the names can collide: adapter `1/2` with disk
      `3` and adapter `1` with disk `2/3` share a device name. */
  lemma DiskDeviceCollision(host: string)
    ensures DiskDevice(host, "1/2", "3") == DiskDevice(host, "1", "2/3")
  {
  }
}

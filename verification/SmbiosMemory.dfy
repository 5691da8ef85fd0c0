/** The memory devices of smbios_init and the address ranges mapped to them, in the 32-bit arithmetic of the tables. */
module SmbiosMemory {
  import opened Words

  const DEVICE_MB: nat := 0x4000

  /** A memory device of `size` MB (type 17) and the first and last KB mapped to it (types 19 and 20). */
  datatype Device = Device(size: nat, first: nat, last: nat)

  function NumDevices(memsize: nat): nat { (memsize + (DEVICE_MB - 1)) / DEVICE_MB }

  function MappedDevice(size: nat, instance: nat): Device {
    var first := Bit32(instance * 0x100_0000);
    Device(size, first, Bit32(first + size * 1024 - 1))
  }

  /** Device i: 16 GB, or what is left for the last one. */
  function DeviceAt(memsize: nat, i: nat): (d: Device)
    requires i < NumDevices(memsize)
    ensures 1 <= d.size <= DEVICE_MB
  {
    MappedDevice(if i == NumDevices(memsize) - 1 then (memsize - 1) % DEVICE_MB + 1 else DEVICE_MB, i)
  }

  function Devices(memsize: nat): seq<Device> {
    seq(NumDevices(memsize), i requires 0 <= i < NumDevices(memsize) => DeviceAt(memsize, i))
  }

  function TotalMb(devs: seq<Device>): nat {
    if devs == [] then 0 else TotalMb(devs[..|devs| - 1]) + devs[|devs| - 1].size
  }

  /** The loop of smbios_init over the memory devices. */
  method DescribeMemory(memsize: nat) returns (devs: seq<Device>)
    ensures devs == Devices(memsize)
    ensures TotalMb(devs) == memsize
  {
    var n := NumDevices(memsize);
    devs := [];
    var i := 0;
    while i < n
      invariant i <= n && devs == Devices(memsize)[..i]
      invariant TotalMb(devs) == if i == n then memsize else i * DEVICE_MB
    {
      var size := if i == n - 1 then (memsize - 1) % DEVICE_MB + 1 else DEVICE_MB;
      assert devs + [MappedDevice(size, i)] == Devices(memsize)[..i + 1];
      assert (devs + [MappedDevice(size, i)])[..i] == devs;
      LastSize(memsize);
      devs := devs + [MappedDevice(size, i)];
      i := i + 1;
    }
  }

  lemma LastSize(memsize: nat)
    requires memsize > 0
    ensures (NumDevices(memsize) - 1) * DEVICE_MB + (memsize - 1) % DEVICE_MB + 1 == memsize
  {
  }

  predicate Covers(d: Device, kb: nat) { d.first <= kb <= d.last }

  ghost predicate Mapped(memsize: nat, kb: nat) {
    exists i: nat :: i < NumDevices(memsize) && Covers(DeviceAt(memsize, i), kb)
  }

  /** Every KB below memsize MB is mapped to exactly one device, and no other KB to any. */
  ghost predicate MapsMemory(memsize: nat) {
    && (forall kb: nat :: Mapped(memsize, kb) <==> kb < memsize * 1024)
    && (forall i: nat, j: nat, kb: nat ::
          i < j < NumDevices(memsize) && Covers(DeviceAt(memsize, i), kb) ==> !Covers(DeviceAt(memsize, j), kb))
  }

  /** The mapped ranges tile the memory exactly when its KB addresses fit in 32 bits; beyond that, they wrap. */
  lemma TilesExactly(memsize: nat)
    ensures MapsMemory(memsize) <==> memsize * 1024 <= TWO_TO_THE_32
  {
    if memsize * 1024 > TWO_TO_THE_32 {
      assert !Mapped(memsize, TWO_TO_THE_32);
    } else {
      forall i: nat | i < NumDevices(memsize) ensures Range(memsize, i) { NoWrap(memsize, i); }
      hide DeviceAt, Covers;
      forall kb: nat ensures Mapped(memsize, kb) <==> kb < memsize * 1024 {
        if kb < memsize * 1024 {
          var i := kb / 0x100_0000;
          assert Range(memsize, i) && Covers(DeviceAt(memsize, i), kb);
        }
        if Mapped(memsize, kb) {
          var i: nat :| i < NumDevices(memsize) && Covers(DeviceAt(memsize, i), kb);
          assert Range(memsize, i);
        }
      }
      forall i: nat, j: nat, kb: nat | i < j < NumDevices(memsize) && Covers(DeviceAt(memsize, i), kb)
        ensures !Covers(DeviceAt(memsize, j), kb)
      {
        assert Range(memsize, i) && Range(memsize, j);
      }
    }
  }

  /** A device covers as many KB as it has, and all but the last have 16 GB. */
  lemma RangeIsSize(memsize: nat, i: nat)
    requires i < NumDevices(memsize) && memsize * 1024 <= 0x1_0000_0000
    ensures var d := DeviceAt(memsize, i);
      && d.last - d.first + 1 == d.size * 1024
      && d.size == if (i + 1) * 0x4000 < memsize then 0x4000 else memsize - i * 0x4000
  {
    LastSize(memsize);
  }

  /** Device i covers its own 16 GB, as far as there is memory. */
  ghost predicate Range(memsize: nat, i: nat) {
    && i < NumDevices(memsize)
    && forall kb: nat :: Covers(DeviceAt(memsize, i), kb) <==> kb / 0x100_0000 == i && kb < memsize * 1024
  }

  lemma NoWrap(memsize: nat, i: nat)
    requires i < NumDevices(memsize) && memsize * 1024 <= TWO_TO_THE_32
    ensures Range(memsize, i)
  {
    LastSize(memsize);
    var d := DeviceAt(memsize, i);
    assert d.first == i * 0x100_0000;
    assert d.last == (if i == NumDevices(memsize) - 1 then memsize * 1024 - 1 else (i + 1) * 0x100_0000 - 1);
  }
}
